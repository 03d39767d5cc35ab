/** An ar member header (`tgdar/ArInfo.py`): the 60-byte record in front of
    every member, unpacked with the template `16s12s6s6s8s10s2s` into name,
    modification time, owner uid, owner gid, file mode, payload size and the
    2-byte end marker. The name is cleaned of every space and newline; the
    five numbers are read with Python's `int()`; the end marker is never
    looked at. An `ArInfo` object carries the decoded header and the member
    payload, which the archive reader stores into it afterwards. */
module Header {
  import opened Base
  import opened PyInt

  /** A member name, as bytes. */
  type Name = seq<byte>

  const HeaderSize: nat := 60

  /** The field widths of the unpack template `16s12s6s6s8s10s2s`. */
  const HeaderTemplate: seq<nat> := [16, 12, 6, 6, 8, 10, 2]

  /** Positions of the fields in `HeaderTemplate`. */
  const NameField := 0
  const MTimeField := 1
  const UidField := 2
  const GidField := 3
  const ModeField := 4
  const SizeField := 5
  const EndField := 6

  const Space: byte := 32
  const Newline: byte := 10

  /** What a writer puts in the end-marker field: a backquote and a newline. */
  const EndMarker: seq<byte> := [96, 10]

  function Sum(widths: seq<nat>): nat
  {
    if widths == [] then 0 else widths[0] + Sum(widths[1..])
  }

  function Concat(fields: seq<seq<byte>>): seq<byte>
  {
    if fields == [] then [] else fields[0] + Concat(fields[1..])
  }

  /** `struct.unpack` with a template of fixed-width byte fields: the fields
      have the template's widths and, put back together in order, give the
      whole record. */
  function Unpack(record: seq<byte>, widths: seq<nat>): seq<seq<byte>>
    requires |record| == Sum(widths)
  {
    if widths == [] then []
    else [record[..widths[0]]] + Unpack(record[widths[0]..], widths[1..])
  }

  lemma {:induction false} UnpackShape(record: seq<byte>, widths: seq<nat>)
    requires |record| == Sum(widths)
    ensures var fields := Unpack(record, widths);
            && |fields| == |widths|
            && (forall i :: 0 <= i < |widths| ==> |fields[i]| == widths[i])
            && Concat(fields) == record
  {
    if widths != [] {
      var rest := record[widths[0]..];
      UnpackShape(rest, widths[1..]);
      var fields := Unpack(record, widths);
      assert fields[1..] == Unpack(rest, widths[1..]);
      assert record == record[..widths[0]] + rest;
    }
  }

  /** Unpacking undoes concatenation: fields of the template's widths are
      found again, in order. */
  lemma {:induction false} UnpackConcat(fields: seq<seq<byte>>, widths: seq<nat>)
    requires |fields| == |widths|
    requires forall i :: 0 <= i < |widths| ==> |fields[i]| == widths[i]
    ensures |Concat(fields)| == Sum(widths)
    ensures Unpack(Concat(fields), widths) == fields
  {
    if fields != [] {
      UnpackConcat(fields[1..], widths[1..]);
      var c := Concat(fields);
      assert c[..widths[0]] == fields[0];
      assert c[widths[0]..] == Concat(fields[1..]);
    }
  }

  lemma {:induction false} ConcatSnoc(fields: seq<seq<byte>>, last: seq<byte>)
    ensures Concat(fields + [last]) == Concat(fields) + last
  {
    if fields == [] {
      assert [] + [last] == [last];
    } else {
      assert (fields + [last])[1..] == fields[1..] + [last];
      ConcatSnoc(fields[1..], last);
    }
  }

  /** A byte the name cleaning removes. */
  predicate IsFiller(b: byte) { b == Space || b == Newline }

  predicate NoFiller(s: seq<byte>) { forall i :: 0 <= i < |s| ==> !IsFiller(s[i]) }

  /** `s.replace(b, '')`: every occurrence of `b` removed, the rest kept in order. */
  function Remove(s: seq<byte>, b: byte): (r: seq<byte>)
    ensures |r| <= |s|
    ensures forall i :: 0 <= i < |r| ==> r[i] != b
  {
    if s == [] then []
    else if s[0] == b then Remove(s[1..], b)
    else [s[0]] + Remove(s[1..], b)
  }

  /** The name cleaning `name.replace(' ', '').replace('\n', '')`. */
  function CleanName(field: seq<byte>): (name: Name)
    ensures |name| <= |field| && NoFiller(name)
  {
    var r := Remove(Remove(field, Space), Newline);
    assert forall i :: 0 <= i < |r| ==> r[i] != Space by {
      RemoveKeeps(Remove(field, Space), Newline, Space);
    }
    r
  }

  /** The second pass never brings back a byte the first pass removed. */
  lemma {:induction false} RemoveKeeps(s: seq<byte>, b: byte, c: byte)
    requires forall i :: 0 <= i < |s| ==> s[i] != c
    ensures forall i :: 0 <= i < |Remove(s, b)| ==> Remove(s, b)[i] != c
  {
    if s != [] {
      RemoveKeeps(s[1..], b, c);
    }
  }

  /** The cleaned name, stated in one pass: the bytes of the field that are
      neither space nor newline, in their original order. */
  function Unfilled(s: seq<byte>): seq<byte>
  {
    if s == [] then []
    else if IsFiller(s[0]) then Unfilled(s[1..])
    else [s[0]] + Unfilled(s[1..])
  }

  /** The two `replace` passes remove exactly the spaces and newlines,
      interior ones included, and keep every other byte in order. */
  lemma {:induction false} CleanNameIsUnfilled(field: seq<byte>)
    ensures CleanName(field) == Unfilled(field)
  {
    if field != [] {
      CleanNameIsUnfilled(field[1..]);
    }
  }

  /** A name written with trailing space padding is read back unchanged. */
  lemma {:induction false} UnfilledPadded(name: seq<byte>, k: nat)
    requires NoFiller(name)
    ensures Unfilled(name + Spaces(k)) == name
  {
    if name == [] {
      assert name + Spaces(k) == Spaces(k);
      if k > 0 {
        assert Spaces(k)[1..] == Spaces(k - 1);
        UnfilledPadded(name, k - 1);
        assert [] + Spaces(k - 1) == Spaces(k - 1);
      }
    } else {
      assert (name + Spaces(k))[1..] == name[1..] + Spaces(k);
      UnfilledPadded(name[1..], k);
    }
  }

  /** A name written with trailing space padding is cleaned back to itself. */
  lemma CleanPaddedName(name: seq<byte>, k: nat)
    requires NoFiller(name)
    ensures CleanName(name + Spaces(k)) == name
  {
    CleanNameIsUnfilled(name + Spaces(k));
    UnfilledPadded(name, k);
  }

  datatype NumericField = MTime | Size | Uid | Gid | Mode

  /** Why `ArInfo(header_data)` raises: the record is not 60 bytes long
      (`struct.error`), or a numeric field is not an integer (`ValueError`). */
  datatype HeaderError = WrongHeaderLength | NotANumber(field: NumericField)

  /** The decoded header fields of an `ArInfo`. */
  datatype ArHeader = ArHeader(name: Name, mtime: int, uid: int, gid: int, mode: int, size: int)

  /** `ArInfo.__init__`: unpack the record, then decode its fields. */
  function DecodeHeader(raw: seq<byte>): (r: Result<ArHeader, HeaderError>)
    ensures r == Err(WrongHeaderLength) <==> |raw| != HeaderSize
    ensures r.Ok? ==> NoFiller(r.value.name) && |r.value.name| <= 16
  {
    if |raw| != HeaderSize then Err(WrongHeaderLength)
    else
      TemplateSize();
      UnpackShape(raw, HeaderTemplate);
      DecodeFieldsOutcome(Unpack(raw, HeaderTemplate));
      DecodeFields(Unpack(raw, HeaderTemplate))
  }

  /** A 60-byte record decodes exactly when all five of its numeric fields
      are integers; any one that is not makes the decoding fail. */
  lemma DecodeSucceedsIffNumbers(raw: seq<byte>)
    requires |raw| == HeaderSize
    ensures DecodeHeader(raw).Ok? <==> NumbersParse(raw)
  {
    TemplateSize();
    UnpackShape(raw, HeaderTemplate);
    DecodeFieldsOutcome(Unpack(raw, HeaderTemplate));
  }

  /** Read mtime, clean the name, and read size, uid, gid and mode, in that
      order; the first failure is the one raised. */
  function DecodeFields(f: seq<seq<byte>>): Result<ArHeader, HeaderError>
    requires |f| == |HeaderTemplate| && |f[NameField]| == 16
  {
    var mtime := ParseInt(f[MTimeField]);
    if mtime.None? then Err(NotANumber(MTime))
    else
      var name := CleanName(f[NameField]);
      var size := ParseInt(f[SizeField]);
      if size.None? then Err(NotANumber(Size))
      else
        var uid := ParseInt(f[UidField]);
        if uid.None? then Err(NotANumber(Uid))
        else
          var gid := ParseInt(f[GidField]);
          if gid.None? then Err(NotANumber(Gid))
          else
            var mode := ParseInt(f[ModeField]);
            if mode.None? then Err(NotANumber(Mode))
            else Ok(ArHeader(name, mtime.value, uid.value, gid.value, mode.value, size.value))
  }

  /** Decoding the fields fails only on a number, fails exactly when one of
      the five numbers is not an integer, and otherwise yields a name without
      spaces or newlines that fits the 16-byte field. */
  lemma DecodeFieldsOutcome(f: seq<seq<byte>>)
    requires |f| == |HeaderTemplate| && |f[NameField]| == 16
    ensures var r := DecodeFields(f);
            && (r.Err? ==> r.error.NotANumber?)
            && (r.Ok? <==> FieldsParse(f))
            && (r.Ok? ==> NoFiller(r.value.name) && |r.value.name| <= 16)
  {
  }

  /** All five numeric fields of a 60-byte record are integers. */
  ghost predicate NumbersParse(raw: seq<byte>)
    requires |raw| == HeaderSize
  {
    TemplateSize();
    UnpackShape(raw, HeaderTemplate);
    FieldsParse(Unpack(raw, HeaderTemplate))
  }

  ghost predicate FieldsParse(f: seq<seq<byte>>)
    requires |f| == |HeaderTemplate|
  {
    && ParseInt(f[MTimeField]).Some? && ParseInt(f[UidField]).Some? && ParseInt(f[GidField]).Some?
    && ParseInt(f[ModeField]).Some? && ParseInt(f[SizeField]).Some?
  }

  lemma TemplateSize()
    ensures Sum(HeaderTemplate) == HeaderSize
  {
    var t := HeaderTemplate;
    assert Sum(t[6..]) == 2;
    assert Sum(t[5..]) == 12;
    assert Sum(t[4..]) == 20;
    assert Sum(t[3..]) == 26;
    assert Sum(t[2..]) == 32;
    assert Sum(t[1..]) == 44;
  }

  /** The header a writer can produce: a name of at most 16 bytes without
      spaces or newlines, and numbers that fit their fields. */
  predicate Encodable(h: ArHeader)
  {
    && |h.name| <= 16 && NoFiller(h.name)
    && h.mtime >= 0 && FitsWidth(h.mtime, 12)
    && h.uid >= 0 && FitsWidth(h.uid, 6)
    && h.gid >= 0 && FitsWidth(h.gid, 6)
    && h.mode >= 0 && FitsWidth(h.mode, 8)
    && h.size >= 0 && FitsWidth(h.size, 10)
  }

  /** The fields of the record an ar writer emits for `h`. */
  function EncodeFields(h: ArHeader): (fields: seq<seq<byte>>)
    requires Encodable(h)
    ensures |fields| == |HeaderTemplate|
    ensures forall i :: 0 <= i < |fields| ==> |fields[i]| == HeaderTemplate[i]
  {
    [h.name + Spaces(16 - |h.name|),
     EncodeField(h.mtime, 12), EncodeField(h.uid, 6), EncodeField(h.gid, 6),
     EncodeField(h.mode, 8), EncodeField(h.size, 10), EndMarker]
  }

  /** The 60-byte record an ar writer emits for `h`. */
  function EncodeHeader(h: ArHeader): (raw: seq<byte>)
    requires Encodable(h)
    ensures |raw| == HeaderSize
  {
    UnpackConcat(EncodeFields(h), HeaderTemplate);
    Concat(EncodeFields(h))
  }

  /** Decoding a written header gives back every field: the template splits
      the record at the right places, the name padding is removed, and the
      numbers are read in base 10. */
  lemma DecodeEncodedHeader(h: ArHeader)
    requires Encodable(h)
    ensures DecodeHeader(EncodeHeader(h)) == Ok(h)
  {
    var fields := EncodeFields(h);
    UnpackConcat(fields, HeaderTemplate);
    assert DecodeHeader(EncodeHeader(h)) == DecodeFields(fields);
    EncodedFieldsRead(h);
    DecodeFieldsOk(fields, h);
  }

  lemma EncodedFieldsRead(h: ArHeader)
    requires Encodable(h)
    ensures var f := EncodeFields(h);
            && CleanName(f[NameField]) == h.name
            && ParseInt(f[MTimeField]) == Some(h.mtime) && ParseInt(f[SizeField]) == Some(h.size)
            && ParseInt(f[UidField]) == Some(h.uid) && ParseInt(f[GidField]) == Some(h.gid)
            && ParseInt(f[ModeField]) == Some(h.mode)
  {
    var f := EncodeFields(h);
    assert CleanName(f[NameField]) == h.name by { CleanPaddedName(h.name, 16 - |h.name|); }
    assert ParseInt(f[MTimeField]) == Some(h.mtime) by { ParseEncodedField(h.mtime, 12); }
    assert ParseInt(f[SizeField]) == Some(h.size) by { ParseEncodedField(h.size, 10); }
    assert ParseInt(f[UidField]) == Some(h.uid) by { ParseEncodedField(h.uid, 6); }
    assert ParseInt(f[GidField]) == Some(h.gid) by { ParseEncodedField(h.gid, 6); }
    assert ParseInt(f[ModeField]) == Some(h.mode) by { ParseEncodedField(h.mode, 8); }
  }

  lemma DecodeFieldsOk(f: seq<seq<byte>>, h: ArHeader)
    requires |f| == |HeaderTemplate| && |f[NameField]| == 16
    requires CleanName(f[NameField]) == h.name
    requires ParseInt(f[MTimeField]) == Some(h.mtime) && ParseInt(f[SizeField]) == Some(h.size)
    requires ParseInt(f[UidField]) == Some(h.uid) && ParseInt(f[GidField]) == Some(h.gid)
    requires ParseInt(f[ModeField]) == Some(h.mode)
    ensures DecodeFields(f) == Ok(h)
  {
  }

  /** The end marker is unpacked but never checked: whatever its two bytes,
      the decoded header (or the error) is the same. */
  lemma EndMarkerIgnored(raw: seq<byte>, marker: seq<byte>)
    requires |raw| == HeaderSize && |marker| == 2
    ensures DecodeHeader(raw[..58] + marker) == DecodeHeader(raw)
  {
    TemplateSize();
    UnpackShape(raw, HeaderTemplate);
    var f := Unpack(raw, HeaderTemplate);
    var g := f[..EndField] + [marker];
    assert f == f[..EndField] + [f[EndField]];
    ConcatSnoc(f[..EndField], f[EndField]);
    ConcatSnoc(f[..EndField], marker);
    assert Concat(f[..EndField]) == raw[..58];
    assert forall i :: 0 <= i < |HeaderTemplate| ==> |g[i]| == HeaderTemplate[i];
    UnpackConcat(g, HeaderTemplate);
    assert DecodeHeader(raw[..58] + marker) == DecodeFields(g);
    assert forall i :: 0 <= i < EndField ==> g[i] == f[i];
  }

  /** The member object `ArInfo`: decoded header fields that stay fixed, and
      the `_content` slot that `set_content` overwrites. */
  class ArInfo {
    const header: ArHeader
    var content: Option<seq<byte>>

    /** The object as `__init__` leaves it: fields decoded, no content yet. */
    constructor (header: ArHeader)
      ensures this.header == header && content == None
    {
      this.header := header;
      content := None;
    }

    /** `ArInfo(header_data)`: decode the record, or raise. */
    static method FromBytes(raw: seq<byte>) returns (r: Result<ArInfo, HeaderError>)
      ensures r.Ok? <==> DecodeHeader(raw).Ok?
      ensures r.Ok? ==> fresh(r.value) && r.value.header == DecodeHeader(raw).value && r.value.content == None
      ensures r.Err? ==> r.error == DecodeHeader(raw).error
    {
      var decoded := DecodeHeader(raw);
      if decoded.Err? {
        return Err(decoded.error);
      }
      var info := new ArInfo(decoded.value);
      return Ok(info);
    }

    /** `set_content`: the `content` property then reads back exactly `data`. */
    method SetContent(data: seq<byte>)
      modifies this
      ensures content == Some(data)
    {
      content := Some(data);
    }
  }
}
