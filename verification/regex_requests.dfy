/** The request handling that `RegexController` puts around the .NET regex
    engine: input validation, the mapping of the option flags onto
    `RegexOptions`, the naming of captured groups, and the rule that every
    endpoint validates before it builds a `Regex`. The engine itself is a
    parameter. */
module RegexRequests {
  import opened Wrappers
  import opened Text

  /** `MaxInputLength`: 1 MiB of UTF-16 code units. */
  const MaxInputLength: nat := 1024 * 1024

  datatype ValidationError = PatternEmpty | InputNull | InputTooLong

  /** `ValidateInput`: an empty (or null, modelled as empty) pattern is
      reported first, then a null input, then an input longer than
      `MaxInputLength` code units. */
  function ValidateInput(input: Option<seq<CodeUnit>>, pattern: string): (r: Option<ValidationError>)
    ensures r.None? <==> |pattern| > 0 && input.Some? && |input.value| <= MaxInputLength
    ensures |pattern| == 0 ==> r == Some(PatternEmpty)
    ensures |pattern| > 0 && input.None? ==> r == Some(InputNull)
    ensures |pattern| > 0 && input.Some? && |input.value| > MaxInputLength ==> r == Some(InputTooLong)
  {
    if |pattern| == 0 then Some(PatternEmpty)
    else if input.None? then Some(InputNull)
    else if |input.value| > MaxInputLength then Some(InputTooLong)
    else None
  }

  /** `RegexOptionsDto`. */
  datatype OptionFlags = OptionFlags(ignoreCase: bool, multiline: bool, singleline: bool)

  /** The `RegexOptions` members the controller can set, with their values. */
  const IgnoreCase: bv32 := 0x01
  const Multiline: bv32 := 0x02
  const Singleline: bv32 := 0x10

  /** `ConvertOptions`: no options give `RegexOptions.None`; otherwise each
      flag is set exactly when its switch is on, and no other flag is. */
  function ConvertOptions(options: Option<OptionFlags>): (r: bv32)
    ensures options.None? ==> r == 0
    ensures r & !(IgnoreCase | Multiline | Singleline) == 0
    ensures (r & IgnoreCase != 0) <==> options.Some? && options.value.ignoreCase
    ensures (r & Multiline != 0) <==> options.Some? && options.value.multiline
    ensures (r & Singleline != 0) <==> options.Some? && options.value.singleline
  {
    match options
    case None => 0
    case Some(o) =>
      (if o.ignoreCase then IgnoreCase else 0)
      | (if o.multiline then Multiline else 0)
      | (if o.singleline then Singleline else 0)
  }

  /** Reads the three switches back from a `RegexOptions` value. */
  function FlagsOf(mask: bv32): OptionFlags {
    OptionFlags(mask & IgnoreCase != 0, mask & Multiline != 0, mask & Singleline != 0)
  }

  /** No information is lost: the switches can be read back from the
      options value, so distinct switch settings give distinct options. */
  lemma ConvertOptionsRoundTrip(o: OptionFlags)
    ensures FlagsOf(ConvertOptions(Some(o))) == o
  {
  }

  /** All switches off is the same as no options at all. */
  lemma AllOffIsNone()
    ensures ConvertOptions(Some(OptionFlags(false, false, false))) == ConvertOptions(None)
  {
  }

  /** One capture group as the engine reports it. */
  datatype Group = Group(value: string, success: bool, index: nat, length: nat)

  /** `RegexGroupDto`. */
  datatype GroupDto = GroupDto(name: string, value: string, success: bool, index: nat, length: nat)

  /** The name of group `i`: the engine's name for it where there is one,
      otherwise its number in decimal. */
  function GroupName(i: nat, groupNames: seq<string>): string {
    if i < |groupNames| then groupNames[i] else DecimalString(i)
  }

  /** `ConvertGroups`: one entry per group, in order, carrying the group's
      value, success, index and length and the name `GroupName` gives. */
  method ConvertGroups(groups: seq<Group>, groupNames: seq<string>) returns (r: seq<GroupDto>)
    ensures |r| == |groups|
    ensures forall i :: 0 <= i < |r| ==>
              && r[i].name == GroupName(i, groupNames)
              && r[i].value == groups[i].value
              && r[i].success == groups[i].success
              && r[i].index == groups[i].index
              && r[i].length == groups[i].length
  {
    r := [];
    var i := 0;
    while i < |groups|
      invariant 0 <= i <= |groups|
      invariant |r| == i
      invariant forall j :: 0 <= j < i ==>
                  && r[j].name == GroupName(j, groupNames)
                  && r[j].value == groups[j].value
                  && r[j].success == groups[j].success
                  && r[j].index == groups[j].index
                  && r[j].length == groups[j].length
    {
      var g := groups[i];
      var name := if i < |groupNames| then groupNames[i] else DecimalString(i);
      r := r + [GroupDto(name, g.value, g.success, g.index, g.length)];
      i := i + 1;
    }
  }

  /** Groups past the end of the name list are told apart by their numbers:
      no two of them share a name. */
  lemma NumberedNamesDistinct(i: nat, j: nat, groupNames: seq<string>)
    requires |groupNames| <= i < j
    ensures GroupName(i, groupNames) != GroupName(j, groupNames)
  {
    DecimalStringInjective(i, j);
  }

  /** For a pattern without named groups the engine's names are the group
      numbers, and the name list changes nothing. */
  lemma UnnamedGroupsAreNumbered(i: nat, groupNames: seq<string>)
    requires forall k :: 0 <= k < |groupNames| ==> groupNames[k] == DecimalString(k)
    ensures GroupName(i, groupNames) == GroupName(i, [])
  {
  }

  datatype RegexError =
    | Invalid(reason: ValidationError)
    | BadPattern
    | TimedOut

  /** What the engine reports for one operation. */
  datatype EngineError = PatternRejected | MatchTimeout

  /** The shape shared by `IsMatch`, `Match`, `Matches`, `Replace` and
      `Split`: validate, then build the regex with the converted options and
      run the operation; a pattern the engine rejects and a timeout become
      their own errors. `run` stands for the engine. */
  function Endpoint<T>(input: Option<seq<CodeUnit>>, pattern: string, options: Option<OptionFlags>,
                       run: (string, bv32, seq<CodeUnit>) -> Result<T, EngineError>): (r: Result<T, RegexError>)
    ensures ValidateInput(input, pattern).Some? ==> r == Failure(Invalid(ValidateInput(input, pattern).value))
    ensures ValidateInput(input, pattern).None? ==>
              match run(pattern, ConvertOptions(options), input.value)
              case Success(v) => r == Success(v)
              case Failure(PatternRejected) => r == Failure(BadPattern)
              case Failure(MatchTimeout) => r == Failure(TimedOut)
  {
    match ValidateInput(input, pattern)
    case Some(e) => Failure(Invalid(e))
    case None =>
      match run(pattern, ConvertOptions(options), input.value)
      case Success(v) => Success(v)
      case Failure(PatternRejected) => Failure(BadPattern)
      case Failure(MatchTimeout) => Failure(TimedOut)
  }

  /** An invalid request is answered without consulting the engine: any two
      engines give the same answer. */
  lemma ValidationBeforeEngine<T>(input: Option<seq<CodeUnit>>, pattern: string, options: Option<OptionFlags>,
                                  run1: (string, bv32, seq<CodeUnit>) -> Result<T, EngineError>,
                                  run2: (string, bv32, seq<CodeUnit>) -> Result<T, EngineError>)
    requires ValidateInput(input, pattern).Some?
    ensures Endpoint(input, pattern, options, run1) == Endpoint(input, pattern, options, run2)
  {
  }

  /** An input of exactly `MaxInputLength` code units passes validation; one
      more does not. */
  lemma LengthLimitInclusive(pattern: string, input: seq<CodeUnit>)
    requires |pattern| > 0
    ensures |input| == MaxInputLength ==> ValidateInput(Some(input), pattern).None?
    ensures |input| == MaxInputLength + 1 ==> ValidateInput(Some(input), pattern) == Some(InputTooLong)
  {
  }
}
