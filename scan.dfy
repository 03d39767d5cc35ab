/** What `tgdar/ArFile.py` reads from an archive, stated on the file's bytes
    and a cursor: the signature check at offset 0, the exact-length chunk
    reader, the scan that alternates 60-byte headers and unpadded payloads
    until a read comes up short, and the name-keyed index the scan fills. */
module Scan {
  import opened Base
  import opened Header
  import OrderedDict

  const SignatureSize: nat := 8

  /** `"!<arch>\n"`. */
  const Magic: seq<byte> := [33, 60, 97, 114, 99, 104, 62, 10]

  /** Why opening or scanning an archive raises. */
  datatype ArError =
    | WrongOpenMode         // ArWrongOpenModeException: mode is neither 'r' nor 'w'
    | SignatureTooShort     // struct.error: fewer than 8 bytes to unpack
    | WrongFormat           // ArWrongFormatException: the 8 bytes are not the signature
    | BadHeader(cause: HeaderError)  // ArInfo(...) raised while scanning
    | NoFileHandle          // AttributeError: the handle is still None, the file was never opened
    | ClosedFile            // ValueError: I/O on a closed file
    | NotReadable           // io.UnsupportedOperation: the file was opened for writing
    | InvalidReadLength     // ValueError: `fd.read(n)` with `n` below -1

  /** The result of `fd.read(n)` followed by the length check of `_data_chunk`:
      the chunk and the cursor after it, or end of file and the cursor after
      the short read, or the `ValueError` of a length `read` refuses, with the
      cursor where it was. */
  datatype Chunk = Chunk(bytes: seq<byte>, next: nat) | EndOfFile(next: nat) | InvalidLength(next: nat)

  /** `_data_chunk(n)` at cursor `pos`, on a buffered binary handle. `n == -1`
      makes `read` return everything that is left, which the length check
      then lets through; any smaller `n` is refused before anything is read. */
  function ReadChunk(data: seq<byte>, pos: nat, n: int): (r: Chunk)
    requires pos <= |data|
    ensures pos <= r.next <= |data|
    ensures r.InvalidLength? <==> n < -1
    ensures r.InvalidLength? ==> r.next == pos
    ensures r.Chunk? <==> n == -1 || (0 <= n && pos + n <= |data|)
    ensures r.Chunk? && n >= 0 ==> r.bytes == data[pos..pos + n] && r.next == pos + n
    ensures r.Chunk? && n == -1 ==> r.bytes == data[pos..] && r.next == |data|
    ensures r.EndOfFile? ==> r.next == |data|
  {
    if n < -1 then InvalidLength(pos)
    else
      var got := if n == -1 || pos + n > |data| then data[pos..] else data[pos..pos + n];
      if |got| < n then EndOfFile(pos + |got|) else Chunk(got, pos + |got|)
  }

  /** `_check_header`: seek to 0, unpack 8 bytes, compare with the signature. */
  function CheckSignature(data: seq<byte>): (r: Outcome<ArError>)
    ensures r.Pass? <==> |data| >= SignatureSize && data[..SignatureSize] == Magic
    ensures r == Fail(SignatureTooShort) <==> |data| < SignatureSize
    ensures r.Fail? ==> r.error == SignatureTooShort || r.error == WrongFormat
  {
    if |data| < SignatureSize then Fail(SignatureTooShort)
    else if data[..SignatureSize] != Magic then Fail(WrongFormat)
    else Pass
  }

  /** One member: its decoded header and the payload read after it. */
  datatype Record = Record(header: ArHeader, payload: seq<byte>)

  /** `r` lies in `data` at offset `off`: its header there, its payload right after. */
  ghost predicate RecordAt(data: seq<byte>, off: nat, r: Record)
  {
    && off + HeaderSize + |r.payload| <= |data|
    && DecodeHeader(data[off..off + HeaderSize]) == Ok(r.header)
    && data[off + HeaderSize..off + HeaderSize + |r.payload|] == r.payload
  }

  /** The payload is as long as the header declares; a size of -1 reads
      everything up to the end of the file. */
  ghost predicate SizedAsDeclared(data: seq<byte>, off: nat, r: Record)
  {
    if r.header.size >= 0 then |r.payload| == r.header.size
    else r.header.size == -1 && off + HeaderSize + |r.payload| == |data|
  }

  /** Why a turn at `off` raised: the header there does not decode, or it
      decodes with a size below -1, which `read` refuses. */
  ghost predicate FailedAt(data: seq<byte>, off: nat, e: ArError)
  {
    && off + HeaderSize <= |data|
    && match e
       case BadHeader(cause) => DecodeHeader(data[off..off + HeaderSize]) == Err(cause)
       case InvalidReadLength =>
         DecodeHeader(data[off..off + HeaderSize]).Ok? && DecodeHeader(data[off..off + HeaderSize]).value.size < -1
       case _ => false
  }

  /** One turn of the `getmembers` loop: a member and the cursor after it, or
      the end of the loop, with the cursor where it stopped and the error
      that escaped the loop, if that is why it stopped. */
  datatype Step = Member(record: Record, next: nat) | Stop(end: nat, failure: Option<ArError>)

  /** Read a header at `pos`, decode it, read `size` bytes right after it.
      A short read of either ends the loop normally, with the cursor at the
      end of the file; a header that does not decode, or one whose size
      `read` refuses, ends it with that error, with the cursor just after
      the header. */
  function NextMember(data: seq<byte>, pos: nat): (st: Step)
    requires pos <= |data|
    ensures st.Member? ==>
              && st.next == pos + HeaderSize + |st.record.payload| <= |data|
              && SizedAsDeclared(data, pos, st.record)
    ensures st.Stop? && st.failure.None? ==> st.end == |data|
    ensures st.Stop? && st.failure.Some? ==>
              && st.end == pos + HeaderSize <= |data|
              && (st.failure.value.BadHeader? || st.failure.value == InvalidReadLength)
  {
    match ReadChunk(data, pos, HeaderSize)
    case EndOfFile(p) => Stop(p, None)
    case Chunk(raw, p1) =>
      match DecodeHeader(raw)
      case Err(e) => Stop(p1, Some(BadHeader(e)))
      case Ok(h) =>
        match ReadChunk(data, p1, h.size)
        case InvalidLength(p2) => Stop(p2, Some(InvalidReadLength))
        case EndOfFile(p2) => Stop(p2, None)
        case Chunk(payload, p2) => Member(Record(h, payload), p2)
  }

  /** What one turn read: a member found at `pos`, or the header at `pos`
      that made it raise. */
  lemma NextMemberAt(data: seq<byte>, pos: nat)
    requires pos <= |data|
    ensures var st := NextMember(data, pos);
            && (st.Member? ==> RecordAt(data, pos, st.record))
            && (st.Stop? && st.failure.Some? ==> FailedAt(data, pos, st.failure.value))
  {
  }

  lemma MemberAt(data: seq<byte>, off: nat, r: Record)
    requires off <= |data| && NextMember(data, off).Member? && NextMember(data, off).record == r
    ensures RecordAt(data, off, r) && SizedAsDeclared(data, off, r)
  {
    NextMemberAt(data, off);
  }

  /** A header that decodes, followed by as many bytes as it declares, is
      read as one member. */
  lemma NextMemberReads(data: seq<byte>, pos: nat, r: Record, next: nat)
    requires next == pos + HeaderSize + |r.payload| <= |data| && |r.payload| == r.header.size
    requires DecodeHeader(data[pos..pos + HeaderSize]) == Ok(r.header)
    requires data[pos + HeaderSize..next] == r.payload
    ensures NextMember(data, pos) == Member(r, next)
  {
  }

  /** The members read, where the cursor ended, and the error that escaped
      the scan, if one did. */
  datatype ScanResult = ScanResult(records: seq<Record>, end: nat, failure: Option<ArError>)

  function Prepend(rs: seq<Record>, s: ScanResult): ScanResult
  {
    ScanResult(rs + s.records, s.end, s.failure)
  }

  lemma PrependSnoc(rs: seq<Record>, r: Record, s: ScanResult)
    ensures Prepend(rs, Prepend([r], s)) == Prepend(rs + [r], s)
  {
    assert rs + ([r] + s.records) == rs + [r] + s.records;
  }

  /** Records passed before a turn that yields none are all the scan yields. */
  lemma PrependStop(rs: seq<Record>, s: ScanResult)
    requires s.records == []
    ensures Prepend(rs, s) == ScanResult(rs, s.end, s.failure)
  {
    assert rs + [] == rs;
  }

  /** A turn taken at cursor `p` stays within the file, and a turn that
      yields a member moves the cursor forward. */
  predicate Advances(st: Step, p: nat, limit: nat)
  {
    match st
    case Member(_, next) => p < next <= limit
    case Stop(end, _) => p <= end <= limit
  }

  /** `turn` can be taken at every cursor position up to `limit`, and advances. */
  ghost predicate Advancing(turn: nat --> Step, limit: nat)
  {
    forall p: nat :: p <= limit ==> turn.requires(p) && Advances(turn(p), p, limit)
  }

  /** The shape of the `getmembers` loop, whatever one turn reads: take turns
      from `pos`, collecting members, until a turn stops. */
  function Walk(turn: nat --> Step, pos: nat, limit: nat): (s: ScanResult)
    requires pos <= limit && Advancing(turn, limit)
    ensures pos <= s.end <= limit
    decreases limit - pos
  {
    match turn(pos)
    case Stop(e, f) => ScanResult([], e, f)
    case Member(r, p) => Prepend([r], Walk(turn, p, limit))
  }

  /** The cursor after the first `k` members of a walk from `pos`. */
  function Cursor(turn: nat --> Step, pos: nat, limit: nat, k: nat): (q: nat)
    requires pos <= limit && Advancing(turn, limit)
    requires k <= |Walk(turn, pos, limit).records|
    ensures pos <= q <= limit
    decreases k
  {
    if k == 0 then pos
    else
      var p := turn(pos).next;
      assert Walk(turn, pos, limit).records == [turn(pos).record] + Walk(turn, p, limit).records;
      Cursor(turn, p, limit, k - 1)
  }

  /** After its first `k` members, a walk goes on as a walk from the cursor
      it has reached. */
  lemma {:induction false} WalkTail(turn: nat --> Step, pos: nat, limit: nat, k: nat)
    requires pos <= limit && Advancing(turn, limit)
    requires k <= |Walk(turn, pos, limit).records|
    ensures var s := Walk(turn, pos, limit);
            s == Prepend(s.records[..k], Walk(turn, Cursor(turn, pos, limit, k), limit))
    decreases k
  {
    var s := Walk(turn, pos, limit);
    if k == 0 {
      assert s.records[..0] == [];
    } else {
      var p := turn(pos).next;
      var rest := Walk(turn, p, limit);
      assert s.records == [turn(pos).record] + rest.records;
      WalkTail(turn, p, limit, k - 1);
      assert s.records[..k] == [turn(pos).record] + rest.records[..k - 1];
    }
  }

  /** Each turn from `pos` on yields the next of `rs`, cut back to back. */
  ghost predicate Chain(turn: nat --> Step, pos: nat, limit: nat, rs: seq<Record>)
    decreases rs
  {
    rs == []
    || (&& pos <= limit && turn.requires(pos)
        && turn(pos) == Member(rs[0], pos + HeaderSize + |rs[0].payload|)
        && Chain(turn, pos + HeaderSize + |rs[0].payload|, limit, rs[1..]))
  }

  lemma ChainCons(turn: nat --> Step, pos: nat, next: nat, limit: nat, r: Record, rest: seq<Record>)
    requires pos <= limit && turn.requires(pos) && next == pos + HeaderSize + |r.payload|
    requires turn(pos) == Member(r, next)
    requires Chain(turn, next, limit, rest)
    ensures Chain(turn, pos, limit, [r] + rest)
  {
    assert ([r] + rest)[1..] == rest;
  }

  /** The `i`-th member is what the turn at the `i`-th cursor yields, and the
      walk stops with the turn at the cursor after the last member. */
  lemma WalkTurns(turn: nat --> Step, pos: nat, limit: nat, i: nat)
    requires pos <= limit && Advancing(turn, limit)
    requires i <= |Walk(turn, pos, limit).records|
    ensures var s := Walk(turn, pos, limit);
            var c := Cursor(turn, pos, limit, i);
            && (i < |s.records| ==> turn(c) == Member(s.records[i], Cursor(turn, pos, limit, i + 1)))
            && (i == |s.records| ==> turn(c) == Stop(s.end, s.failure))
  {
    var s := Walk(turn, pos, limit);
    var c := Cursor(turn, pos, limit, i);
    WalkTail(turn, pos, limit, i);
    var t := Walk(turn, c, limit);
    if i < |s.records| {
      assert t.records[0] == s.records[i];
      CursorNext(turn, pos, limit, i);
    } else {
      assert |t.records| == 0;
    }
  }

  lemma {:induction false} CursorNext(turn: nat --> Step, pos: nat, limit: nat, k: nat)
    requires pos <= limit && Advancing(turn, limit)
    requires k < |Walk(turn, pos, limit).records|
    ensures var c := Cursor(turn, pos, limit, k);
            turn(c).Member? && Cursor(turn, pos, limit, k + 1) == turn(c).next
    decreases k
  {
    var p := turn(pos).next;
    assert Walk(turn, pos, limit).records == [turn(pos).record] + Walk(turn, p, limit).records;
    if k > 0 {
      CursorNext(turn, p, limit, k - 1);
    }
  }

  /** One turn of the loop over the file's bytes. */
  function Turn(data: seq<byte>): nat --> Step
  {
    (p: nat) requires p <= |data| => NextMember(data, p)
  }

  lemma TurnAdvances(data: seq<byte>)
    ensures Advancing(Turn(data), |data|)
  {
    forall p: nat | p <= |data|
      ensures Turn(data).requires(p) && Advances(Turn(data)(p), p, |data|)
    {
      var st := NextMember(data, p);
      assert Turn(data)(p) == st;
    }
  }

  /** The `getmembers` loop from cursor `pos`, turn by turn until it stops. */
  function ScanFrom(data: seq<byte>, pos: nat): (s: ScanResult)
    requires pos <= |data|
    ensures pos <= s.end <= |data|
  {
    TurnAdvances(data);
    Walk(Turn(data), pos, |data|)
  }

  /** One turn of the scan: a member, then the scan from the cursor after
      it; or the end of the scan. */
  lemma ScanStep(data: seq<byte>, pos: nat)
    requires pos <= |data|
    ensures match NextMember(data, pos)
            case Member(r, p) => ScanFrom(data, pos) == Prepend([r], ScanFrom(data, p))
            case Stop(e, f) => ScanFrom(data, pos) == ScanResult([], e, f)
  {
    TurnAdvances(data);
    assert Turn(data)(pos) == NextMember(data, pos);
  }

  /** The turn's first read comes up short: the scan ends normally. */
  lemma ScanAtShortHeader(data: seq<byte>, pos: nat)
    requires pos <= |data| && ReadChunk(data, pos, HeaderSize).EndOfFile?
    ensures ScanFrom(data, pos) == ScanResult([], |data|, None)
  {
    ScanStep(data, pos);
  }

  /** The header read does not decode: the scan ends with that error, the
      cursor after the header. */
  lemma ScanAtBadHeader(data: seq<byte>, pos: nat, raw: seq<byte>, e: HeaderError)
    requires pos <= |data| && ReadChunk(data, pos, HeaderSize) == Chunk(raw, pos + HeaderSize)
    requires DecodeHeader(raw) == Err(e)
    ensures ScanFrom(data, pos) == ScanResult([], pos + HeaderSize, Some(BadHeader(e)))
  {
    ScanStep(data, pos);
  }

  /** The header decodes with a size below -1: the payload read raises
      `ValueError`, which ends the scan, the cursor after the header. */
  lemma ScanAtInvalidLength(data: seq<byte>, pos: nat, raw: seq<byte>, h: ArHeader)
    requires pos <= |data| && ReadChunk(data, pos, HeaderSize) == Chunk(raw, pos + HeaderSize)
    requires DecodeHeader(raw) == Ok(h) && ReadChunk(data, pos + HeaderSize, h.size).InvalidLength?
    ensures h.size < -1
    ensures ScanFrom(data, pos) == ScanResult([], pos + HeaderSize, Some(InvalidReadLength))
  {
    ScanStep(data, pos);
  }

  /** The header decodes but the payload read comes up short: the scan ends
      normally, without that member. */
  lemma ScanAtShortPayload(data: seq<byte>, pos: nat, raw: seq<byte>, h: ArHeader)
    requires pos <= |data| && ReadChunk(data, pos, HeaderSize) == Chunk(raw, pos + HeaderSize)
    requires DecodeHeader(raw) == Ok(h) && ReadChunk(data, pos + HeaderSize, h.size).EndOfFile?
    ensures ScanFrom(data, pos) == ScanResult([], |data|, None)
  {
    ScanStep(data, pos);
  }

  /** Both reads succeed: the member, then the scan from the cursor after it. */
  lemma ScanAtMember(data: seq<byte>, pos: nat, raw: seq<byte>, h: ArHeader, payload: seq<byte>, next: nat)
    requires pos <= |data| && ReadChunk(data, pos, HeaderSize) == Chunk(raw, pos + HeaderSize)
    requires DecodeHeader(raw) == Ok(h) && ReadChunk(data, pos + HeaderSize, h.size) == Chunk(payload, next)
    ensures next <= |data|
    ensures ScanFrom(data, pos) == Prepend([Record(h, payload)], ScanFrom(data, next))
  {
    ScanStep(data, pos);
  }

  /** Bytes taken by `rs` in the file: each header and its payload, no padding. */
  function Span(rs: seq<Record>): nat
  {
    if rs == [] then 0 else Span(rs[..|rs| - 1]) + HeaderSize + |rs[|rs| - 1].payload|
  }

  /** The cursor of the scan from `pos` after its first `k` members. */
  function ScanCursorAfter(data: seq<byte>, pos: nat, k: nat): (q: nat)
    requires pos <= |data| && k <= |ScanFrom(data, pos).records|
    ensures pos <= q <= |data|
  {
    TurnAdvances(data);
    Cursor(Turn(data), pos, |data|, k)
  }

  /** The cursor after `k` members is `pos` plus the bytes they take. */
  lemma {:induction false} ScanCursor(data: seq<byte>, pos: nat, k: nat)
    requires pos <= |data| && k <= |ScanFrom(data, pos).records|
    ensures ScanCursorAfter(data, pos, k) == pos + Span(ScanFrom(data, pos).records[..k])
  {
    TurnAdvances(data);
    var rs := ScanFrom(data, pos).records;
    if k == 0 {
      assert rs[..0] == [];
    } else {
      ScanCursor(data, pos, k - 1);
      WalkTurns(Turn(data), pos, |data|, k - 1);
      var c := Cursor(Turn(data), pos, |data|, k - 1);
      assert Turn(data)(c) == NextMember(data, c);
      assert rs[..k][..k - 1] == rs[..k - 1];
    }
  }

  /** The turn at the cursor reached after `i` members reads the `i`-th member. */
  lemma ScanMemberTurn(data: seq<byte>, pos: nat, i: nat)
    requires pos <= |data| && i < |ScanFrom(data, pos).records|
    ensures var c := ScanCursorAfter(data, pos, i);
            NextMember(data, c).Member? && NextMember(data, c).record == ScanFrom(data, pos).records[i]
  {
    TurnAdvances(data);
    WalkTurns(Turn(data), pos, |data|, i);
    var c := Cursor(Turn(data), pos, |data|, i);
    assert Turn(data)(c) == NextMember(data, c);
  }

  /** The turn at the cursor reached after the last member is the one that
      stopped the scan. */
  lemma ScanStopTurn(data: seq<byte>, pos: nat)
    requires pos <= |data|
    ensures var s := ScanFrom(data, pos);
            NextMember(data, ScanCursorAfter(data, pos, |s.records|)) == Stop(s.end, s.failure)
  {
    TurnAdvances(data);
    var n := |ScanFrom(data, pos).records|;
    WalkTurns(Turn(data), pos, |data|, n);
    var c := Cursor(Turn(data), pos, |data|, n);
    assert Turn(data)(c) == NextMember(data, c);
  }

  /** Where the scan finds each member: the i-th header starts at
      `pos + Span(records[..i])`, so each header follows the previous payload
      immediately, and each payload is as long as its header says. */
  lemma ScanRecordsAt(data: seq<byte>, pos: nat, i: nat)
    requires pos <= |data| && i < |ScanFrom(data, pos).records|
    ensures var s := ScanFrom(data, pos);
            && RecordAt(data, pos + Span(s.records[..i]), s.records[i])
            && SizedAsDeclared(data, pos + Span(s.records[..i]), s.records[i])
  {
    ScanCursor(data, pos, i);
    MemberAtCursor(data, pos, i, pos + Span(ScanFrom(data, pos).records[..i]));
  }

  /** The `i`-th member sits at the cursor the scan reached before it. */
  lemma MemberAtCursor(data: seq<byte>, pos: nat, i: nat, c: nat)
    requires pos <= |data| && i < |ScanFrom(data, pos).records| && c == ScanCursorAfter(data, pos, i)
    ensures RecordAt(data, c, ScanFrom(data, pos).records[i])
    ensures SizedAsDeclared(data, c, ScanFrom(data, pos).records[i])
  {
    ScanMemberTurn(data, pos, i);
    MemberAt(data, c, ScanFrom(data, pos).records[i]);
  }

  /** Where the scan stops: a scan that ends normally has consumed the whole
      file, and one that fails stops right after the header that made it
      raise (one that does not decode, or one whose size is below -1), which
      starts right after the last member read. */
  lemma ScanEnd(data: seq<byte>, pos: nat)
    requires pos <= |data|
    ensures var s := ScanFrom(data, pos);
            && (s.failure.None? ==> s.end == |data|)
            && (s.failure.Some? ==>
                  && s.end == pos + Span(s.records) + HeaderSize
                  && FailedAt(data, pos + Span(s.records), s.failure.value))
  {
    var s := ScanFrom(data, pos);
    var n := |s.records|;
    ScanCursor(data, pos, n);
    assert s.records[..n] == s.records;
    EndAtCursor(data, pos);
  }

  /** `ScanEnd`, stated at the cursor the scan reached after its last member. */
  lemma EndAtCursor(data: seq<byte>, pos: nat)
    requires pos <= |data|
    ensures var s := ScanFrom(data, pos);
            var c := ScanCursorAfter(data, pos, |s.records|);
            && (s.failure.None? ==> s.end == |data|)
            && (s.failure.Some? ==> s.end == c + HeaderSize && FailedAt(data, c, s.failure.value))
  {
    ScanStopTurn(data, pos);
    NextMemberAt(data, ScanCursorAfter(data, pos, |ScanFrom(data, pos).records|));
  }

  /** A member read with a negative size has size -1 and has swallowed the
      rest of the file, so it is the last member and the scan ends normally
      after it. */
  lemma NegativeSizeIsLast(data: seq<byte>, pos: nat, i: nat)
    requires pos <= |data| && i < |ScanFrom(data, pos).records|
    requires ScanFrom(data, pos).records[i].header.size < 0
    ensures ScanFrom(data, pos).records[i].header.size == -1
    ensures i == |ScanFrom(data, pos).records| - 1 && ScanFrom(data, pos).failure.None?
  {
    TurnAdvances(data);
    var s := ScanFrom(data, pos);
    WalkTurns(Turn(data), pos, |data|, i);
    var c := Cursor(Turn(data), pos, |data|, i);
    assert Turn(data)(c) == NextMember(data, c);
    WalkTail(Turn(data), pos, |data|, i + 1);
    ScanAtEnd(data);
    assert s.records == s.records[..i + 1] + ScanFrom(data, |data|).records;
  }

  /** A header that decodes but whose payload is cut short by the end of the
      file ends the scan normally, without that member. */
  lemma TruncatedPayloadDropped(data: seq<byte>, pos: nat, h: ArHeader)
    requires pos + HeaderSize <= |data|
    requires DecodeHeader(data[pos..pos + HeaderSize]) == Ok(h)
    requires h.size > |data| - pos - HeaderSize
    ensures ScanFrom(data, pos) == ScanResult([], |data|, None)
  {
    ScanStep(data, pos);
  }

  /** A header that decodes with a size below -1 ends the scan with
      `ValueError`, the cursor right after that header. */
  lemma InvalidSizeRaises(data: seq<byte>, pos: nat, h: ArHeader)
    requires pos + HeaderSize <= |data|
    requires DecodeHeader(data[pos..pos + HeaderSize]) == Ok(h)
    requires h.size < -1
    ensures ScanFrom(data, pos) == ScanResult([], pos + HeaderSize, Some(InvalidReadLength))
  {
    ScanStep(data, pos);
  }

  /** At the end of the file a scan finds nothing and raises nothing: this is
      what a second scan sees, since the cursor is not rewound. */
  lemma ScanAtEnd(data: seq<byte>)
    ensures ScanFrom(data, |data|) == ScanResult([], |data|, None)
  {
    ScanStep(data, |data|);
  }

  /** `getmembers`' dictionary after a scan: each member stored under its
      name, a later member replacing an earlier one of the same name. */
  function Index(rs: seq<Record>): OrderedDict.Dict<Name, Record>
  {
    OrderedDict.FromPairs(Pairs(rs))
  }

  function Pairs(rs: seq<Record>): (ps: seq<(Name, Record)>)
    ensures |ps| == |rs| && forall i :: 0 <= i < |rs| ==> ps[i] == (rs[i].header.name, rs[i])
  {
    if rs == [] then [] else Pairs(rs[..|rs| - 1]) + [(rs[|rs| - 1].header.name, rs[|rs| - 1])]
  }

  /** Storing one more member extends the index as `d[name] = member` does. */
  lemma IndexSnoc(rs: seq<Record>, r: Record)
    ensures Index(rs + [r]) == OrderedDict.Put(Index(rs), r.header.name, r)
  {
    assert (rs + [r])[..|rs|] == rs;
    assert Pairs(rs + [r]) == Pairs(rs) + [(r.header.name, r)];
    assert (Pairs(rs) + [(r.header.name, r)])[..|rs|] == Pairs(rs);
  }

  /** Duplicate names: the index holds, for each name, the last member read
      with that name; every name read is a key, listed once, in the order in
      which the names were first read. */
  lemma IndexLastWins(rs: seq<Record>, name: Name)
    ensures var d := Index(rs);
            && OrderedDict.Valid(d)
            && (name in d.entries <==> exists i :: 0 <= i < |rs| && rs[i].header.name == name)
            && (name in d.entries ==>
                  exists i :: 0 <= i < |rs| && rs[i] == d.entries[name] && rs[i].header.name == name
                              && forall j :: i < j < |rs| ==> rs[j].header.name != name)
  {
    var ps := Pairs(rs);
    OrderedDict.FromPairsValid(ps);
    OrderedDict.FromPairsKeys(ps, name);
    if exists i :: 0 <= i < |ps| && ps[i].0 == name {
      var i :| 0 <= i < |ps| && ps[i].0 == name;
      assert rs[i].header.name == name;
    }
    if name in Index(rs).entries {
      OrderedDict.FromPairsLastWins(ps, name);
      var i :| OrderedDict.LastAssignment(ps, i, name) && ps[i].1 == Index(rs).entries[name];
      assert rs[i] == Index(rs).entries[name];
      forall j | i < j < |rs| ensures rs[j].header.name != name {
        assert ps[j].0 != name;
      }
    }
  }

  /** Every member in the index of a scan is stored under its own name and
      has a payload of its declared size, unless that size is -1. */
  lemma IndexedPayloadSizes(data: seq<byte>, pos: nat, name: Name)
    requires pos <= |data|
    requires name in Index(ScanFrom(data, pos).records).entries
    ensures var r := Index(ScanFrom(data, pos).records).entries[name];
            && r.header.name == name && r.header.size >= -1
            && (r.header.size >= 0 ==> |r.payload| == r.header.size)
  {
    var rs := ScanFrom(data, pos).records;
    IndexLastWins(rs, name);
    var i :| 0 <= i < |rs| && rs[i] == Index(rs).entries[name] && rs[i].header.name == name;
    ScanRecordsAt(data, pos, i);
  }

  /** A member as an ar writer lays it out: header, then payload, no padding. */
  predicate WellFormed(r: Record)
  {
    Encodable(r.header) && |r.payload| == r.header.size
  }

  /** Every member of `rs` is well formed. */
  predicate AllWellFormed(rs: seq<Record>)
  {
    rs == [] || (WellFormed(rs[0]) && AllWellFormed(rs[1..]))
  }

  function EncodeMembers(rs: seq<Record>): (bytes: seq<byte>)
    requires AllWellFormed(rs)
  {
    if rs == [] then []
    else EncodeHeader(rs[0].header) + rs[0].payload + EncodeMembers(rs[1..])
  }

  /** The bytes of an archive holding `rs`. */
  function EncodeArchive(rs: seq<Record>): (bytes: seq<byte>)
    requires AllWellFormed(rs)
  {
    Magic + EncodeMembers(rs)
  }

  /** `rs` lie back to back in `data` from `off`, each read as it is there. */
  ghost predicate LaidOut(data: seq<byte>, off: nat, rs: seq<Record>)
  {
    Chain(Turn(data), off, |data|, rs)
  }

  lemma {:induction false} SpanCons(rs: seq<Record>)
    requires rs != []
    ensures Span(rs) == HeaderSize + |rs[0].payload| + Span(rs[1..])
  {
    if |rs| > 1 {
      var init := rs[..|rs| - 1];
      SpanCons(init);
      assert init[1..] == rs[1..][..|rs[1..]| - 1];
    } else {
      assert rs[..0] == [];
    }
  }

  /** Scanning over members laid out back to back from `off` to `stop`
      reads them back, one by one, and carries on with whatever follows
      them. */
  lemma {:induction false} ScanOverMembers(data: seq<byte>, off: nat, rs: seq<Record>, stop: nat)
    requires off <= |data| && LaidOut(data, off, rs) && stop == off + Span(rs)
    ensures stop <= |data|
    ensures ScanFrom(data, off) == Prepend(rs, ScanFrom(data, stop))
    decreases rs
  {
    if rs == [] {
      assert stop == off;
      assert Prepend([], ScanFrom(data, off)) == ScanFrom(data, off);
    } else {
      var next := off + HeaderSize + |rs[0].payload|;
      ScanOverFirst(data, off, rs, next, stop);
      ScanOverMembers(data, next, rs[1..], stop);
      PrependCons(ScanFrom(data, off), ScanFrom(data, next), ScanFrom(data, stop), rs);
    }
  }

  /** The first of the members laid out at `off`: the scan steps over it to
      where the rest are laid out. */
  lemma ScanOverFirst(data: seq<byte>, off: nat, rs: seq<Record>, next: nat, stop: nat)
    requires off <= |data| && rs != [] && LaidOut(data, off, rs) && stop == off + Span(rs)
    requires next == off + HeaderSize + |rs[0].payload|
    ensures next <= |data| && LaidOut(data, next, rs[1..]) && stop == next + Span(rs[1..])
    ensures ScanFrom(data, off) == Prepend([rs[0]], ScanFrom(data, next))
  {
    ScanOverMember(data, off, rs[0], next);
    SpanCons(rs);
  }

  /** The scan over one member laid out at `pos`. */
  lemma ScanOverMember(data: seq<byte>, pos: nat, r: Record, next: nat)
    requires pos <= |data| && Turn(data).requires(pos) && Turn(data)(pos) == Member(r, next)
    ensures next <= |data|
    ensures ScanFrom(data, pos) == Prepend([r], ScanFrom(data, next))
  {
    assert Turn(data)(pos) == NextMember(data, pos);
    ScanStep(data, pos);
  }

  /** Written members take exactly the bytes the scan steps over. */
  lemma {:induction false} EncodedSpan(rs: seq<Record>)
    requires AllWellFormed(rs)
    ensures Span(rs) == |EncodeMembers(rs)|
    decreases rs
  {
    if rs != [] {
      EncodedSpan(rs[1..]);
      SpanCons(rs);
    }
  }

  /** Members as an ar writer emits them are laid out back to back, whatever
      comes before and after them in the file. */
  lemma {:induction false} WrittenLaidOut(pre: seq<byte>, rs: seq<Record>, post: seq<byte>)
    requires AllWellFormed(rs)
    ensures LaidOut(pre + (EncodeMembers(rs) + post), |pre|, rs)
    decreases rs
  {
    if rs != [] {
      var h, p, rest := EncodeHeader(rs[0].header), rs[0].payload, EncodeMembers(rs[1..]);
      var data := pre + h + p + (rest + post);
      var next := |pre| + HeaderSize + |p|;
      assert |pre + h + p| == next;
      assert Chain(Turn(data), next, |data|, rs[1..]) by {
        WrittenLaidOut(pre + h + p, rs[1..], post);
      }
      assert Turn(data)(|pre|) == Member(rs[0], next) by {
        WrittenMemberTurn(pre, rs[0], rest + post);
      }
      ChainCons(Turn(data), |pre|, next, |data|, rs[0], rs[1..]);
      assert [rs[0]] + rs[1..] == rs;
      assert pre + (EncodeMembers(rs) + post) == data by {
        assert EncodeMembers(rs) == h + p + rest;
        Regroup(pre, h, p, rest, post);
      }
    }
  }

  /** Re-associates the concatenation that lays one member out after a prefix. */
  lemma Regroup<T>(a: seq<T>, b: seq<T>, c: seq<T>, d: seq<T>, e: seq<T>)
    ensures a + ((b + c + d) + e) == a + b + c + (d + e)
  {
  }

  /** A member written after `pre` is what the scan's turn there reads. */
  lemma WrittenMemberTurn(pre: seq<byte>, r: Record, post: seq<byte>)
    requires WellFormed(r)
    ensures var data := pre + EncodeHeader(r.header) + r.payload + post;
            Turn(data)(|pre|) == Member(r, |pre| + HeaderSize + |r.payload|)
  {
    var h := EncodeHeader(r.header);
    var data := pre + h + r.payload + post;
    var next := |pre| + HeaderSize + |r.payload|;
    assert data[|pre|..|pre| + HeaderSize] == h;
    assert data[|pre| + HeaderSize..next] == r.payload;
    DecodeEncodedHeader(r.header);
    NextMemberReads(data, |pre|, r, next);
  }

  lemma PrependCons(a: ScanResult, b: ScanResult, c: ScanResult, rs: seq<Record>)
    requires rs != [] && a == Prepend([rs[0]], b) && b == Prepend(rs[1..], c)
    ensures a == Prepend(rs, c)
  {
    assert [rs[0]] + (rs[1..] + c.records) == rs + c.records;
  }


  /** Whatever follows the members of a written archive, the scan yields
      those members first and then goes on from the end of the last one. */
  lemma WrittenThen(rs: seq<Record>, post: seq<byte>)
    requires AllWellFormed(rs)
    ensures var data := EncodeArchive(rs) + post;
            |EncodeArchive(rs)| <= |data| &&
            ScanFrom(data, SignatureSize) == Prepend(rs, ScanFrom(data, |EncodeArchive(rs)|))
  {
    WrittenArchiveLaidOut(rs, post);
    ScanOverMembers(EncodeArchive(rs) + post, SignatureSize, rs, |EncodeArchive(rs)|);
  }

  /** The members of a written archive sit back to back right after its
      signature, up to the end of the last one. */
  lemma WrittenArchiveLaidOut(rs: seq<Record>, post: seq<byte>)
    requires AllWellFormed(rs)
    ensures LaidOut(EncodeArchive(rs) + post, SignatureSize, rs)
    ensures SignatureSize + Span(rs) == |EncodeArchive(rs)|
  {
    var m := EncodeMembers(rs);
    assert EncodeArchive(rs) + post == Magic + (m + post);
    WrittenLaidOut(Magic, rs, post);
    EncodedSpan(rs);
  }

  /** An archive written from `rs` passes the signature check and scans back
      to exactly `rs`, ending normally at the end of the file. */
  lemma ArchiveRoundTrip(rs: seq<Record>)
    requires AllWellFormed(rs)
    ensures CheckSignature(EncodeArchive(rs)) == Pass
    ensures ScanFrom(EncodeArchive(rs), SignatureSize) == ScanResult(rs, |EncodeArchive(rs)|, None)
  {
    var data := EncodeArchive(rs);
    assert data[..SignatureSize] == Magic;
    WrittenThen(rs, []);
    assert data + [] == data;
    ScanAtEnd(data);
    assert rs + [] == rs;
  }

  /** A written header whose declared size runs past the end of the file
      ends the scan cleanly, without a member. */
  lemma WrittenTruncated(data: seq<byte>, pos: nat, h: ArHeader)
    requires Encodable(h) && pos + HeaderSize <= |data|
    requires data[pos..pos + HeaderSize] == EncodeHeader(h)
    requires h.size > |data| - pos - HeaderSize
    ensures ScanFrom(data, pos) == ScanResult([], |data|, None)
  {
    DecodeEncodedHeader(h);
    TruncatedPayloadDropped(data, pos, h);
  }

  /** An archive whose last member is cut short yields the members before it
      and no error: the short member is silently dropped. */
  lemma TruncatedArchive(rs: seq<Record>, h: ArHeader, partial: seq<byte>)
    requires AllWellFormed(rs)
    requires Encodable(h) && |partial| < h.size
    ensures var data := EncodeArchive(rs) + EncodeHeader(h) + partial;
            ScanFrom(data, SignatureSize) == ScanResult(rs, |data|, None)
  {
    var hb := EncodeHeader(h);
    var prefix := EncodeArchive(rs);
    var data := prefix + hb + partial;
    assert data == prefix + (hb + partial);
    WrittenThen(rs, hb + partial);
    assert data[|prefix|..|prefix| + HeaderSize] == hb;
    WrittenTruncated(data, |prefix|, h);
    assert rs + [] == rs;
  }
}
