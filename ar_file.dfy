/** `tgdar/ArFile.py`: the archive object. It holds the file handle, whose
    position is the read cursor, and the cache of members that `getmembers`
    fills in place. The file itself is its bytes, `data`; what the scan reads
    from them is specified in module `Scan`. */
module Archive {
  import opened Base
  import opened Header
  import opened Scan
  import OrderedDict

  const ReadMode: string := "r"
  const WriteMode: string := "w"

  /** `self.fd`: `None` until `__enter__` opens the file, then a handle open
      for reading or for writing, until `__exit__` closes it. */
  datatype FdState = NoFile | ReadOnly | WriteOnly | Closed

  /** What `fd.read` raises on a handle that cannot be read, if anything. */
  function ReadError(fd: FdState): (e: Option<ArError>)
    ensures e.None? <==> fd == ReadOnly
  {
    match fd
    case NoFile => Some(NoFileHandle)
    case ReadOnly => None
    case WriteOnly => Some(NotReadable)
    case Closed => Some(ClosedFile)
  }

  /** The cache holds, under each key, an `ArInfo` object with the header and
      content of the member `d` holds there, keys listed in the same order. */
  ghost predicate Mirrors(c: OrderedDict.Dict<Name, ArInfo>, d: OrderedDict.Dict<Name, Record>)
    reads c.entries.Values
  {
    && c.keys == d.keys
    && c.entries.Keys == d.entries.Keys
    && forall k :: k in c.entries ==>
         c.entries[k].header == d.entries[k].header && c.entries[k].content == Some(d.entries[k].payload)
  }

  /** Storing an object that holds `r` under `k` keeps the cache in step
      with storing `r` itself. */
  lemma PutMirrors(c: OrderedDict.Dict<Name, ArInfo>, d: OrderedDict.Dict<Name, Record>, k: Name, info: ArInfo, r: Record)
    requires Mirrors(c, d)
    requires info.header == r.header && info.content == Some(r.payload)
    ensures Mirrors(OrderedDict.Put(c, k, info), OrderedDict.Put(d, k, r))
  {
  }

  /** Storing the object for one more member keeps the cache in step with
      the index of the members read so far. */
  lemma MirrorsSnoc(c: OrderedDict.Dict<Name, ArInfo>, done: seq<Record>, info: ArInfo, r: Record)
    requires Mirrors(c, Index(done))
    requires info.header == r.header && info.content == Some(r.payload)
    ensures Mirrors(OrderedDict.Put(c, r.header.name, info), Index(done + [r]))
  {
    PutMirrors(c, Index(done), r.header.name, info, r);
    IndexSnoc(done, r);
  }

  class ArFile {
    /** The bytes of the file at `file_path`. */
    var data: seq<byte>
    const mode: string
    var fd: FdState
    /** The handle's position. */
    var cursor: nat
    /** `_cached_members`; `None` and `{}` are both empty here, as both are
        false to `not`. */
    var cache: OrderedDict.Dict<Name, ArInfo>

    /** The cursor is within the file, and the cache has no keys exactly
        when it has no entries, so that testing its key list is testing its
        truth value, as `not self._cached_members` does. */
    ghost predicate Valid()
      reads this
    {
      cursor <= |data| && (cache.keys == [] <==> cache.entries == map[])
    }

    /** `ArFile.open(name, mode)`: remembers the file and the mode, opens nothing. */
    constructor (data: seq<byte>, mode: string)
      ensures Valid()
      ensures this.data == data && this.mode == mode
      ensures fd == NoFile && cursor == 0 && cache == OrderedDict.Empty()
    {
      this.data := data;
      this.mode := mode;
      fd := NoFile;
      cursor := 0;
      cache := OrderedDict.Empty();
    }

    /** `__enter__`: reject any mode but `'r'` and `'w'` before touching the
        file; open it (for `'w'`, truncating it); then `_check_header`: go to
        offset 0 and read the 8-byte signature. The cache survives. */
    method Enter() returns (r: Outcome<ArError>)
      requires Valid()
      modifies this
      ensures Valid() && cache == old(cache)
      ensures mode != ReadMode && mode != WriteMode ==>
                r == Fail(WrongOpenMode) && data == old(data) && fd == old(fd) && cursor == old(cursor)
      ensures mode == WriteMode ==> r == Fail(NotReadable) && data == [] && fd == WriteOnly && cursor == 0
      ensures mode == ReadMode ==>
                && data == old(data) && fd == ReadOnly
                && r == CheckSignature(data)
                && cursor == if |data| < SignatureSize then |data| else SignatureSize
    {
      if mode != ReadMode && mode != WriteMode {
        return Fail(WrongOpenMode);
      }
      if mode == WriteMode {
        data := [];
        fd := WriteOnly;
        cursor := 0;
        return Fail(NotReadable);
      }
      fd := ReadOnly;
      r := CheckHeader();
    }

    /** `_check_header` on a readable handle: seek to 0, read up to 8 bytes,
        and compare them with the signature. */
    method CheckHeader() returns (r: Outcome<ArError>)
      requires Valid() && fd == ReadOnly
      modifies this`cursor
      ensures Valid()
      ensures r == CheckSignature(data)
      ensures r.Pass? ==> data[..cursor] == Magic
      ensures cursor == if |data| < SignatureSize then |data| else SignatureSize
    {
      cursor := 0;
      var got := if |data| < SignatureSize then data else data[..SignatureSize];
      cursor := |got|;
      if |got| < SignatureSize {
        return Fail(SignatureTooShort);
      }
      if got != Magic {
        return Fail(WrongFormat);
      }
      return Pass;
    }

    /** `_data_chunk(n)`: read `n` bytes at the cursor; fewer than `n` is
        end of file, after the cursor has moved past what was there. `read`
        itself raises on a handle that cannot be read, and for `n` below -1. */
    method DataChunk(n: int) returns (r: Result<Chunk, ArError>)
      requires Valid()
      modifies this`cursor
      ensures Valid()
      ensures ReadError(fd).Some? ==> r == Err(ReadError(fd).value) && cursor == old(cursor)
      ensures ReadError(fd).None? && n < -1 ==> r == Err(InvalidReadLength) && cursor == old(cursor)
      ensures ReadError(fd).None? && n >= -1 ==>
                r == Ok(ReadChunk(data, old(cursor), n)) && cursor == r.value.next
    {
      var e := ReadError(fd);
      if e.Some? {
        return Err(e.value);
      }
      if n < -1 {
        return Err(InvalidReadLength);
      }
      var got := if n == -1 || cursor + n > |data| then data[cursor..] else data[cursor..cursor + n];
      cursor := cursor + |got|;
      if |got| < n {
        return Ok(EndOfFile(cursor));
      }
      return Ok(Chunk(got, cursor));
    }

    /** The body of the `getmembers` loop, up to storing the member: read a
        header, decode it, read its payload and set it as the content. The
        new object, or `None` where `ArEndOfFile` breaks the loop, or the
        decoding error or the payload read's `ValueError`, which escape the
        loop. */
    method ReadMember() returns (r: Result<Option<ArInfo>, ArError>)
      requires Valid() && fd == ReadOnly
      modifies this`cursor
      ensures Valid()
      ensures r.Ok? && r.value.Some? ==>
                && fresh(r.value.value) && r.value.value.content.Some? && old(cursor) < cursor
                && ScanFrom(data, old(cursor))
                     == Prepend([Record(r.value.value.header, r.value.value.content.value)], ScanFrom(data, cursor))
      ensures r.Ok? && r.value.None? ==> ScanFrom(data, old(cursor)) == ScanResult([], cursor, None)
      ensures r.Err? ==> ScanFrom(data, old(cursor)) == ScanResult([], cursor, Some(r.error))
    {
      ghost var here := cursor;
      var header := DataChunk(HeaderSize);
      if header.value.EndOfFile? {
        ScanAtShortHeader(data, here);
        return Ok(None);
      }
      var info := ArInfo.FromBytes(header.value.bytes);
      if info.Err? {
        ScanAtBadHeader(data, here, header.value.bytes, info.error);
        return Err(BadHeader(info.error));
      }
      var payload := DataChunk(info.value.header.size);
      if payload.Err? {
        ScanAtInvalidLength(data, here, header.value.bytes, info.value.header);
        return Err(payload.error);
      }
      if payload.value.EndOfFile? {
        ScanAtShortPayload(data, here, header.value.bytes, info.value.header);
        return Ok(None);
      }
      info.value.SetContent(payload.value.bytes);
      ScanAtMember(data, here, header.value.bytes, info.value.header, payload.value.bytes, cursor);
      return Ok(Some(info.value));
    }

    /** `getmembers(recache)`. A non-empty cache is returned as it is unless
        `recache` is set. Otherwise the cache is emptied and refilled by the
        scan from the current cursor, which is not rewound: the scan leaves
        the cursor where it stopped, and the cache holds one object per name,
        for the last member of that name. A header that does not decode, or
        one whose size `read` refuses, raises out of the loop and leaves the
        members read before it cached. */
    method GetMembers(recache: bool) returns (r: Result<OrderedDict.Dict<Name, ArInfo>, ArError>)
      requires Valid()
      modifies this
      ensures Valid() && data == old(data) && fd == old(fd)
      ensures old(cache).keys != [] && !recache ==>
                r == Ok(old(cache)) && cache == old(cache) && cursor == old(cursor)
      ensures (old(cache).keys == [] || recache) && ReadError(fd).Some? ==>
                r == Err(ReadError(fd).value) && cache == OrderedDict.Empty() && cursor == old(cursor)
      ensures (old(cache).keys == [] || recache) && ReadError(fd).None? ==>
                var s := ScanFrom(data, old(cursor));
                && cursor == s.end
                && Mirrors(cache, Index(s.records))
                && (s.failure.None? ==> r == Ok(cache))
                && (s.failure.Some? ==> r == Err(s.failure.value))
    {
      if cache.keys != [] && !recache {
        return Ok(cache);
      }
      cache := OrderedDict.Empty();
      var e := ReadError(fd);
      if e.Some? {
        return Err(e.value);
      }
      r := Rescan();
    }

    /** The `while` loop of `getmembers`, entered with an emptied cache: it
        stores every member the scan from the cursor yields, under its name,
        and stops where the scan stops, with the error the scan ends on. */
    method Rescan() returns (r: Result<OrderedDict.Dict<Name, ArInfo>, ArError>)
      requires Valid() && fd == ReadOnly && cache == OrderedDict.Empty()
      modifies this`cursor, this`cache
      ensures Valid()
      ensures var s := ScanFrom(data, old(cursor));
              && cursor == s.end
              && Mirrors(cache, Index(s.records))
              && (s.failure.None? ==> r == Ok(cache))
              && (s.failure.Some? ==> r == Err(s.failure.value))
    {
      ghost var start := cursor;
      ghost var done: seq<Record> := [];
      assert Prepend([], ScanFrom(data, start)) == ScanFrom(data, start);
      while true
        invariant Valid() && start <= cursor
        invariant ScanFrom(data, start) == Prepend(done, ScanFrom(data, cursor))
        invariant Mirrors(cache, Index(done))
        decreases |data| - cursor
      {
        ghost var here := cursor;
        var stored, m := StoreNext(done);
        if stored.Err? {
          PrependStop(done, ScanFrom(data, here));
          return Err(stored.error);
        }
        if !stored.value {
          PrependStop(done, ScanFrom(data, here));
          return Ok(cache);
        }
        PrependSnoc(done, m, ScanFrom(data, cursor));
        done := done + [m];
      }
    }

    /** One pass of the `while` loop of `getmembers`: the `try` block reads a
        member and stores it under its name (`Ok(true)`); `ArEndOfFile` breaks
        the loop (`Ok(false)`); any other error escapes it. `m` is the member
        read. */
    method StoreNext(ghost done: seq<Record>) returns (r: Result<bool, ArError>, ghost m: Record)
      requires Valid() && fd == ReadOnly && Mirrors(cache, Index(done))
      modifies this`cursor, this`cache
      ensures Valid()
      ensures r == Ok(true) ==>
                && old(cursor) < cursor && Mirrors(cache, Index(done + [m]))
                && ScanFrom(data, old(cursor)) == Prepend([m], ScanFrom(data, cursor))
      ensures r == Ok(false) ==> ScanFrom(data, old(cursor)) == ScanResult([], cursor, None) && cache == old(cache)
      ensures r.Err? ==> ScanFrom(data, old(cursor)) == ScanResult([], cursor, Some(r.error)) && cache == old(cache)
    {
      m := Record(ArHeader([], 0, 0, 0, 0, 0), []);
      var turn := ReadMember();
      if turn.Err? {
        return Err(turn.error), m;
      }
      if turn.value.None? {
        return Ok(false), m;
      }
      var info := turn.value.value;
      m := Record(info.header, info.content.value);
      MirrorsSnoc(cache, done, info, m);
      cache := OrderedDict.Put(cache, info.header.name, info);
      return Ok(true), m;
    }

    /** `getmember(name, recache)`: the cached object stored under `name`, or
        `None` if there is none; only the scan it may trigger can raise. */
    method GetMember(name: Name, recache: bool) returns (r: Result<Option<ArInfo>, ArError>)
      requires Valid()
      modifies this
      ensures Valid() && data == old(data) && fd == old(fd)
      ensures r.Ok? ==> (r.value.Some? <==> name in cache.entries)
      ensures r.Ok? && r.value.Some? ==> r.value.value == cache.entries[name]
      ensures old(cache).keys != [] && !recache ==> r.Ok? && cache == old(cache) && cursor == old(cursor)
      ensures (old(cache).keys == [] || recache) && ReadError(fd).Some? ==>
                r == Err(ReadError(fd).value) && cache == OrderedDict.Empty() && cursor == old(cursor)
      ensures (old(cache).keys == [] || recache) && ReadError(fd).None? ==>
                var s := ScanFrom(data, old(cursor));
                && cursor == s.end
                && Mirrors(cache, Index(s.records))
                && (s.failure.Some? ==> r == Err(s.failure.value))
                && (s.failure.None? ==> r.Ok?)
    {
      var res := GetMembers(recache);
      if res.Err? {
        return Err(res.error);
      }
      if name in res.value.entries {
        return Ok(Some(res.value.entries[name]));
      }
      return Ok(None);
    }

    /** `getnames(recache)`: the cached names, in insertion order. */
    method GetNames(recache: bool) returns (r: Result<seq<Name>, ArError>)
      requires Valid()
      modifies this
      ensures Valid() && data == old(data) && fd == old(fd)
      ensures r.Ok? ==> r.value == cache.keys
      ensures old(cache).keys != [] && !recache ==>
                r == Ok(old(cache).keys) && cache == old(cache) && cursor == old(cursor)
      ensures (old(cache).keys == [] || recache) && ReadError(fd).Some? ==>
                r == Err(ReadError(fd).value) && cache == OrderedDict.Empty() && cursor == old(cursor)
      ensures (old(cache).keys == [] || recache) && ReadError(fd).None? ==>
                var s := ScanFrom(data, old(cursor));
                && cursor == s.end
                && Mirrors(cache, Index(s.records))
                && (s.failure.Some? ==> r == Err(s.failure.value))
                && (s.failure.None? ==> r == Ok(Index(s.records).keys))
    {
      var res := GetMembers(recache);
      if res.Err? {
        return Err(res.error);
      }
      return Ok(res.value.keys);
    }

    /** `__exit__`: close the handle; closing twice is harmless, but there is
        nothing to close before `__enter__` has opened the file. */
    method Exit() returns (r: Outcome<ArError>)
      modifies this`fd
      ensures old(fd) == NoFile ==> r == Fail(NoFileHandle) && fd == NoFile
      ensures old(fd) != NoFile ==> r == Pass && fd == Closed
    {
      if fd == NoFile {
        return Fail(NoFileHandle);
      }
      fd := Closed;
      return Pass;
    }
  }
}
