/** `StorageService`: a temporary file store keyed by random access keys.
    The store is a map from access key to stored file; every operation is a
    function from the store before to the store after, paired with what the
    caller sees. Time is an integer count of 100-nanosecond ticks (the unit
    of `DateTime`), read once per operation and passed in as `now`; the
    random access key is passed in as `key`. */
module Storage {
  import opened Wrappers
  import opened Text

  /** `MaxFileSizeBytes`: 10 MiB. */
  const MaxFileSizeBytes: nat := 10 * 1024 * 1024

  /** `MaxStoredFiles`. */
  const MaxStoredFiles: nat := 1000

  const TicksPerMinute: nat := 600_000_000

  /** The last tick of `DateTime.MaxValue`. */
  const MaxTicks: nat := 3_155_378_975_999_999_999

  /** A `DateTime` value as its tick count. */
  type Ticks = t: int | 0 <= t <= MaxTicks

  datatype Metadata = Metadata(
    accessKey: string,
    fileName: Option<string>,
    fileSizeBytes: nat,
    createdAt: Ticks,
    expiresAt: Ticks)

  datatype StoredFile = StoredFile(content: seq<Byte>, metadata: Metadata)

  datatype Store = Store(files: map<string, StoredFile>)

  datatype StorageError =
    | ContentEmpty
    | ContentTooLarge
    | CapacityExceeded
    | ExpiryOutOfRange
    | KeyCollision
    | AccessKeyEmpty

  /** What the service keeps true of its dictionary: within capacity, every
      entry filed under its own key, with a size that is its length and
      within the size limit. */
  predicate Valid(s: Store) {
    && |s.files| <= MaxStoredFiles
    && forall k :: k in s.files ==>
         && s.files[k].metadata.accessKey == k
         && s.files[k].metadata.fileSizeBytes == |s.files[k].content|
         && 0 < |s.files[k].content| <= MaxFileSizeBytes
  }

  predicate Expired(f: StoredFile, now: Ticks) {
    now > f.metadata.expiresAt
  }

  lemma {:induction false} SubsetCardinality<T>(a: set<T>, b: set<T>)
    requires a <= b
    ensures |a| <= |b|
    decreases |b|
  {
    if a != {} {
      var x :| x in a;
      SubsetCardinality(a - {x}, b - {x});
    }
  }

  /** `CleanupExpiredFilesSync`: removes exactly the entries whose expiry
      lies strictly before `now`; the rest stay as they were. */
  function Purge(s: Store, now: Ticks): (r: Store)
    ensures forall k :: k in r.files <==> k in s.files && !Expired(s.files[k], now)
    ensures forall k :: k in r.files ==> r.files[k] == s.files[k]
    ensures |r.files| <= |s.files|
  {
    var files := map k | k in s.files && !Expired(s.files[k], now) :: s.files[k];
    SubsetCardinality(files.Keys, s.files.Keys);
    Store(files)
  }

  /** `StoreFile`. Empty content is rejected, then content above the size
      limit. A full store is purged first and the request rejected if it is
      still full; the purge stands either way. Then the expiry `now + ttl` is
      computed, which fails outside the `DateTime` range, and the entry is
      added unless the generated key is taken. */
  function StoreFile(s: Store, content: seq<Byte>, fileName: Option<string>, ttlMinutes: int,
                     key: string, now: Ticks): (r: (Store, Result<Metadata, StorageError>))
    ensures |content| == 0 ==> r == (s, Failure(ContentEmpty))
    ensures |content| > MaxFileSizeBytes ==> r == (s, Failure(ContentTooLarge))
    ensures 0 < |content| <= MaxFileSizeBytes && |s.files| < MaxStoredFiles ==> forall k :: k in s.files ==> k in r.0.files
    ensures r.1 == Failure(CapacityExceeded) ==> |s.files| >= MaxStoredFiles && |r.0.files| >= MaxStoredFiles
    ensures r.1.Success? <==>
              var base := if |s.files| >= MaxStoredFiles then Purge(s, now) else s;
              && 0 < |content| <= MaxFileSizeBytes
              && |base.files| < MaxStoredFiles
              && 0 <= now + ttlMinutes * TicksPerMinute <= MaxTicks
              && key !in base.files
    ensures r.1.Success? ==>
              var base := if |s.files| >= MaxStoredFiles then Purge(s, now) else s;
              && key !in base.files
              && r.0.files == base.files[key := StoredFile(content, r.1.value)]
              && r.1.value.accessKey == key && r.1.value.fileName == fileName
              && r.1.value.fileSizeBytes == |content|
              && r.1.value.createdAt == now && r.1.value.expiresAt == now + ttlMinutes * TicksPerMinute
    ensures 0 < |content| <= MaxFileSizeBytes ==>
              var base := if |s.files| >= MaxStoredFiles then Purge(s, now) else s;
              var expiresAt := now + ttlMinutes * TicksPerMinute;
              && (r.1.Failure? ==> r.0 == base)
              && (|base.files| >= MaxStoredFiles ==> r.1 == Failure(CapacityExceeded))
              && (|base.files| < MaxStoredFiles && !(0 <= expiresAt <= MaxTicks) ==> r.1 == Failure(ExpiryOutOfRange))
              && (|base.files| < MaxStoredFiles && 0 <= expiresAt <= MaxTicks && key in base.files ==>
                    r.1 == Failure(KeyCollision))
  {
    if |content| == 0 then (s, Failure(ContentEmpty))
    else if |content| > MaxFileSizeBytes then (s, Failure(ContentTooLarge))
    else
      var base := if |s.files| >= MaxStoredFiles then Purge(s, now) else s;
      if |base.files| >= MaxStoredFiles then (base, Failure(CapacityExceeded))
      else
        var expiresAt := now + ttlMinutes * TicksPerMinute;
        if !(0 <= expiresAt <= MaxTicks) then (base, Failure(ExpiryOutOfRange))
        else if key in base.files then (base, Failure(KeyCollision))
        else
          var metadata := Metadata(key, fileName, |content|, now, expiresAt);
          (Store(base.files[key := StoredFile(content, metadata)]), Success(metadata))
  }

  /** `GetFile`: a blank key is an argument error; an unknown key yields
      nothing; an entry past its expiry is removed and yields nothing; any
      other entry is returned as stored. */
  function GetFile(s: Store, key: string, now: Ticks): (r: (Store, Result<Option<StoredFile>, StorageError>))
    ensures IsBlank(key) ==> r == (s, Failure(AccessKeyEmpty))
    ensures !IsBlank(key) ==> r.1.Success?
    ensures r.1.Success? && r.1.value.Some? <==>
              !IsBlank(key) && key in s.files && !Expired(s.files[key], now)
    ensures r.1.Success? && r.1.value.Some? ==> r.1.value.value == s.files[key] && r.0 == s
    ensures r.0.files == s.files || (key in s.files && Expired(s.files[key], now) && r.0.files == s.files - {key})
    ensures !IsBlank(key) && key in s.files && Expired(s.files[key], now) ==> r.0.files == s.files - {key}
    ensures IsBlank(key) || key !in s.files || !Expired(s.files[key], now) ==> r.0 == s
  {
    if IsBlank(key) then (s, Failure(AccessKeyEmpty))
    else if key !in s.files then (s, Success(None))
    else if Expired(s.files[key], now) then (Store(s.files - {key}), Success(None))
    else (s, Success(Some(s.files[key])))
  }

  /** `DeleteFile`: a blank key is an argument error; otherwise the entry is
      removed and the answer is whether there was one. */
  function DeleteFile(s: Store, key: string): (r: (Store, Result<bool, StorageError>))
    ensures IsBlank(key) ==> r == (s, Failure(AccessKeyEmpty))
    ensures !IsBlank(key) ==> r.1 == Success(key in s.files)
    ensures !IsBlank(key) ==> key !in r.0.files
    ensures forall k :: k != key ==> (k in r.0.files <==> k in s.files)
    ensures forall k :: k != key && k in r.0.files ==> r.0.files[k] == s.files[k]
  {
    if IsBlank(key) then (s, Failure(AccessKeyEmpty))
    else if key in s.files then (Store(s.files - {key}), Success(true))
    else (s, Success(false))
  }

  // ------------------------------------------------------------ properties

  /** Purging keeps the store valid. */
  lemma PurgeKeepsValid(s: Store, now: Ticks)
    requires Valid(s)
    ensures Valid(Purge(s, now))
  {
  }

  lemma RemoveCardinality(m: map<string, StoredFile>, key: string)
    ensures |m - {key}| <= |m|
  {
    SubsetCardinality((m - {key}).Keys, m.Keys);
  }

  /** Storing keeps the store valid; in particular the number of entries
      never exceeds `MaxStoredFiles`. */
  lemma StoreKeepsValid(s: Store, content: seq<Byte>, fileName: Option<string>, ttlMinutes: int,
                        key: string, now: Ticks)
    requires Valid(s)
    ensures Valid(StoreFile(s, content, fileName, ttlMinutes, key, now).0)
  {
    var r := StoreFile(s, content, fileName, ttlMinutes, key, now);
    if r.1.Success? {
      var base := if |s.files| >= MaxStoredFiles then Purge(s, now) else s;
      assert |base.files| < MaxStoredFiles;
      assert |r.0.files| == |base.files| + 1;
    } else if 0 < |content| <= MaxFileSizeBytes && |s.files| >= MaxStoredFiles {
      PurgeKeepsValid(s, now);
    }
  }

  lemma GetKeepsValid(s: Store, key: string, now: Ticks)
    requires Valid(s)
    ensures Valid(GetFile(s, key, now).0)
  {
    RemoveCardinality(s.files, key);
  }

  lemma DeleteKeepsValid(s: Store, key: string)
    requires Valid(s)
    ensures Valid(DeleteFile(s, key).0)
  {
    RemoveCardinality(s.files, key);
  }

  /** A stored file reads back unchanged at any time from its creation up to
      and including its expiry, and reads as missing after it. */
  lemma StoreThenGet(s: Store, content: seq<Byte>, fileName: Option<string>, ttlMinutes: int,
                     key: string, now: Ticks, later: Ticks)
    requires StoreFile(s, content, fileName, ttlMinutes, key, now).1.Success?
    requires !IsBlank(key)
    ensures var stored := StoreFile(s, content, fileName, ttlMinutes, key, now);
            var got := GetFile(stored.0, key, later).1;
            && (later <= stored.1.value.expiresAt ==> got == Success(Some(StoredFile(content, stored.1.value))))
            && (later > stored.1.value.expiresAt ==> got == Success(None))
  {
  }

  /** After a delete, the key reads as missing and a second delete answers
      false. */
  lemma DeleteThenGet(s: Store, key: string, now: Ticks)
    requires !IsBlank(key)
    ensures GetFile(DeleteFile(s, key).0, key, now).1 == Success(None)
    ensures DeleteFile(DeleteFile(s, key).0, key).1 == Success(false)
  {
  }

  /** A read exactly at the expiry tick still succeeds; one tick later the
      entry is gone. */
  lemma ExpiryIsInclusive(s: Store, key: string, t: Ticks)
    requires !IsBlank(key) && key in s.files && s.files[key].metadata.expiresAt == t
    ensures GetFile(s, key, t).1 == Success(Some(s.files[key]))
    ensures t < MaxTicks ==> GetFile(s, key, t + 1) == (Store(s.files - {key}), Success(None))
  {
  }

  /** A store with room does not purge: storing leaves every other entry in
      place, expired or not. */
  lemma RoomMeansNoPurge(s: Store, content: seq<Byte>, fileName: Option<string>, ttlMinutes: int,
                         key: string, now: Ticks, k: string)
    requires |s.files| < MaxStoredFiles && k in s.files
    ensures var r := StoreFile(s, content, fileName, ttlMinutes, key, now).0;
            k in r.files && (k != key ==> r.files[k] == s.files[k])
  {
  }
}
