/** The tag-length-value message inside a packet: an independent encoder, the
    parser's specification, the in-place parser and the in-place field writer. */
module WireCodec {
  import opened Options
  import opened WireBytes

  const PROTOCOL_VERSION: byte := 1
  const KIND_REQUEST: byte := 0
  const KIND_RESPONSE: byte := 1
  const KIND_EVENT: byte := 2
  const MAX_FRAME := 2 * 1024 * 1024
  const MAX_FIELDS := 32
  const MAX_FIELD := 1024 * 1024

  datatype Field = Field(tag: byte, data: seq<byte>)
  datatype Frame = Frame(kind: byte, op: byte, id: word, fields: seq<Field>)

  // ---- what a frame looks like on the wire ----

  function EncodeField(f: Field): seq<byte> {
    [f.tag] + U32(Low32(|f.data|)) + f.data
  }

  ghost predicate FieldsWellFormed(fs: seq<Field>) {
    && |fs| <= MAX_FIELDS
    && (forall i :: 0 <= i < |fs| ==> |fs[i].data| <= MAX_FIELD)
    && (forall i :: 0 <= i < |fs| ==> fs[i].tag != 0)
    && (forall i, j :: 0 <= i < j < |fs| ==> fs[i].tag != fs[j].tag)
  }

  ghost function EncodeFields(fs: seq<Field>): seq<byte> {
    if fs == [] then [] else EncodeField(fs[0]) + EncodeFields(fs[1..])
  }

  ghost predicate WellFormed(f: Frame) {
    f.kind <= KIND_EVENT && FieldsWellFormed(f.fields)
  }

  function Header(kind: byte, op: byte, id: word): (h: seq<byte>)
    ensures |h| == 7
  {
    [PROTOCOL_VERSION, kind, op] + U32(id)
  }

  ghost function EncodeFrame(f: Frame): seq<byte> {
    Header(f.kind, f.op, f.id) + EncodeFields(f.fields)
  }

  // ---- what the parser accepts ----

  predicate HasTag(fs: seq<Field>, tag: byte) {
    exists i :: 0 <= i < |fs| && fs[i].tag == tag
  }

  /** The fields of buf, appended to those already parsed. */
  function DecodeFields(buf: seq<byte>, got: seq<Field>): Option<seq<Field>>
    decreases |buf|
  {
    if buf == [] then Some(got)
    else if |got| >= MAX_FIELDS || |buf| < 5 || buf[0] == 0 then None
    else
      var len := Num(buf[1..5]);
      if len > MAX_FIELD || len > |buf| - 5 || HasTag(got, buf[0]) then None
      else DecodeFields(buf[5 + len..], got + [Field(buf[0], buf[5..5 + len])])
  }

  function Decode(buf: seq<byte>): Option<Frame> {
    if |buf| < 7 || buf[0] != PROTOCOL_VERSION || buf[1] > KIND_EVENT then None
    else match DecodeFields(buf[7..], [])
      case None => None
      case Some(fields) => Some(Frame(buf[1], buf[2], Num(buf[3..7]), fields))
  }

  // ---- the codec is a bijection ----

  /** The first field of an encoding, as the parser finds it. */
  lemma FirstField(fs: seq<Field>)
    requires fs != [] && |fs[0].data| <= MAX_FIELD
    ensures var buf, end := EncodeFields(fs), 5 + |fs[0].data|;
            && end <= |buf| && buf[0] == fs[0].tag && Num(buf[1..5]) == |fs[0].data|
            && buf[5..end] == fs[0].data && buf[end..] == EncodeFields(fs[1..])
  {
    hide Num, U32;
    var f, rest := fs[0], EncodeFields(fs[1..]);
    var size := U32(Low32(|f.data|));
    NumOfU32(|f.data|);
    assert EncodeFields(fs) == ([f.tag] + size + f.data) + rest;
    Pieces(f.tag, size, f.data, rest);
  }

  lemma Pieces(tag: byte, size: seq<byte>, data: seq<byte>, rest: seq<byte>)
    requires |size| == 4
    ensures var buf := ([tag] + size + data) + rest;
            && buf[0] == tag && buf[1..5] == size && buf[5..5 + |data|] == data && buf[5 + |data|..] == rest
  {
  }

  lemma {:induction false} DecodeFieldsOfEncode(fs: seq<Field>, got: seq<Field>)
    requires FieldsWellFormed(got + fs)
    ensures DecodeFields(EncodeFields(fs), got) == Some(got + fs)
    decreases |fs|
  {
    if fs == [] {
      assert got + fs == got;
    } else {
      hide EncodeField, Num, U32;
      var f := fs[0];
      assert (got + fs)[|got|] == f;
      FirstField(fs);
      assert !HasTag(got, f.tag) by {
        forall i | 0 <= i < |got| ensures got[i].tag != f.tag {
          assert (got + fs)[i].tag != (got + fs)[|got|].tag;
        }
      }
      assert got + [f] + fs[1..] == got + fs;
      DecodeFieldsOfEncode(fs[1..], got + [f]);
    }
  }

  lemma EncodeFieldsSplit(fs: seq<Field>, f: Field, rest: seq<Field>)
    requires fs == [f] + rest
    ensures EncodeFields(fs) == EncodeField(f) + EncodeFields(rest)
  {
    assert fs[1..] == rest;
  }

  lemma FieldAtFront(buf: seq<byte>)
    requires |buf| >= 5 && 5 + Num(buf[1..5]) <= |buf|
    ensures var end := 5 + Num(buf[1..5]);
            buf == EncodeField(Field(buf[0], buf[5..end])) + buf[end..]
  {
    hide Num, U32;
    U32OfNum(buf[1..5]);
    var end := 5 + Num(buf[1..5]);
    assert buf == buf[..1] + buf[1..5] + buf[5..end] + buf[end..];
  }

  /** A field the parser lets through keeps the list well formed. */
  lemma OneMoreField(got: seq<Field>, f: Field)
    requires FieldsWellFormed(got)
    requires |got| < MAX_FIELDS && f.tag != 0 && |f.data| <= MAX_FIELD && !HasTag(got, f.tag)
    ensures FieldsWellFormed(got + [f])
  {
    var all := got + [f];
    forall i, j | 0 <= i < j < |all| ensures all[i].tag != all[j].tag {
      assert got[i] == all[i];
    }
  }

  /** One turn of an accepting pass. */
  lemma DecodeStep(buf: seq<byte>, got: seq<Field>)
    requires buf != [] && DecodeFields(buf, got).Some?
    ensures |got| < MAX_FIELDS && |buf| >= 5 && buf[0] != 0 && !HasTag(got, buf[0])
    ensures var len := Num(buf[1..5]);
            && len <= MAX_FIELD && 5 + len <= |buf|
            && DecodeFields(buf, got) == DecodeFields(buf[5 + len..], got + [Field(buf[0], buf[5..5 + len])])
  {
  }

  lemma {:induction false} EncodeOfDecodeFields(buf: seq<byte>, got: seq<Field>)
    requires FieldsWellFormed(got)
    requires DecodeFields(buf, got).Some?
    ensures var all := DecodeFields(buf, got).value;
            got <= all && FieldsWellFormed(all) && EncodeFields(all[|got|..]) == buf
    decreases |buf|
  {
    if buf == [] {
      assert got[|got|..] == [];
    } else {
      hide Num, EncodeField, EncodeFields, DecodeFields, FieldsWellFormed, HasTag;
      DecodeStep(buf, got);
      var len := Num(buf[1..5]);
      var f := Field(buf[0], buf[5..5 + len]);
      var all := DecodeFields(buf, got).value;
      OneMoreField(got, f);
      EncodeOfDecodeFields(buf[5 + len..], got + [f]);
      FieldAtFront(buf);
      NextIs(all, got, f);
      EncodeFieldsSplit(all[|got|..], f, all[|got + [f]|..]);
    }
  }

  lemma NextIs<T>(all: seq<T>, got: seq<T>, x: T)
    requires got + [x] <= all
    ensures got <= all && all[|got|..] == [x] + all[|got + [x]|..]
  {
    assert all[|got|] == x;
  }

  /** Where everything stands in a packet's body: version, kind, operation, id, and each
      field as tag, length and data. */
  lemma Layout(f: Frame)
    requires WellFormed(f)
    ensures var e := EncodeFrame(f);
            && |e| >= 7 && e[0] == 1 && e[1] == f.kind && e[2] == f.op && e[3..7] == U32(f.id)
            && (f.fields == [] ==> |e| == 7)
            && (f.fields != [] ==>
                  var n := |f.fields[0].data|;
                  && |e| >= 12 + n && e[7] == f.fields[0].tag && e[8..12] == U32(n) && e[12..12 + n] == f.fields[0].data
                  && e[12 + n..] == EncodeFields(f.fields[1..]))
  {
    hide U32;
    var e := EncodeFrame(f);
    assert e[7..] == EncodeFields(f.fields);
    if f.fields != [] {
      var g, rest := f.fields[0], EncodeFields(f.fields[1..]);
      assert e[7..] == ([g.tag] + U32(Low32(|g.data|)) + g.data) + rest;
      Pieces(g.tag, U32(Low32(|g.data|)), g.data, rest);
      assert e[8..12] == e[7..][1..5] && e[12..12 + |g.data|] == e[7..][5..5 + |g.data|];
      assert e[12 + |g.data|..] == e[7..][5 + |g.data|..];
    }
  }

  /** Parsing an encoded frame gives the frame back. */
  lemma DecodeOfEncode(f: Frame)
    requires WellFormed(f)
    ensures Decode(EncodeFrame(f)) == Some(f)
  {
    var buf := EncodeFrame(f);
    NumOfU32(f.id);
    assert buf[3..7] == U32(f.id);
    assert buf[7..] == EncodeFields(f.fields);
    assert [] + f.fields == f.fields;
    DecodeFieldsOfEncode(f.fields, []);
  }

  /** Every accepted buffer is the encoding of what was parsed from it. */
  lemma EncodeOfDecode(buf: seq<byte>)
    requires Decode(buf).Some?
    ensures WellFormed(Decode(buf).value)
    ensures EncodeFrame(Decode(buf).value) == buf
  {
    EncodeOfDecodeFields(buf[7..], []);
    U32OfNum(buf[3..7]);
    var f := Decode(buf).value;
    assert f.fields[0..] == f.fields;
    assert buf == buf[..7] + buf[7..];
    assert buf[..7] == Header(f.kind, f.op, f.id);
  }

  /** The parser accepts exactly the encodings of well-formed frames, so a
      buffer it refuses encodes none. */
  lemma AcceptsExactlyEncodings(buf: seq<byte>)
    ensures Decode(buf).Some? <==> exists f: Frame :: WellFormed(f) && EncodeFrame(f) == buf
  {
    if Decode(buf).Some? {
      EncodeOfDecode(buf);
    }
    forall f: Frame | WellFormed(f) && EncodeFrame(f) == buf ensures Decode(buf).Some? {
      DecodeOfEncode(f);
    }
  }

  /** field(): the first field with a tag, or none. */
  function Find(fs: seq<Field>, tag: byte): (r: Option<Field>)
    ensures r.None? <==> !HasTag(fs, tag)
    ensures r.Some? ==> r.value in fs && r.value.tag == tag
  {
    if fs == [] then None
    else if fs[0].tag == tag then Some(fs[0])
    else
      var r := Find(fs[1..], tag);
      assert HasTag(fs[1..], tag) ==> HasTag(fs, tag) by {
        if HasTag(fs[1..], tag) {
          var i :| 0 <= i < |fs[1..]| && fs[1..][i].tag == tag;
          assert fs[i + 1].tag == tag;
        }
      }
      assert HasTag(fs, tag) ==> HasTag(fs[1..], tag) by {
        if HasTag(fs, tag) {
          var i :| 0 <= i < |fs| && fs[i].tag == tag;
          assert fs[1..][i - 1].tag == tag;
        }
      }
      r
  }

  // ---- the imperative parser and writer ----

  /** The field an offset of the buffer starts, if the parser lets it through. */
  predicate GoodField(all: seq<byte>, off: nat, got: seq<Field>) {
    && |got| < MAX_FIELDS && off + 5 <= |all| && all[off] != 0
    && Num(all[off + 1..off + 5]) <= MAX_FIELD
    && off + 5 + Num(all[off + 1..off + 5]) <= |all|
    && !HasTag(got, all[off])
  }

  lemma RejectStep(all: seq<byte>, off: nat, got: seq<Field>)
    requires off < |all| && !GoodField(all, off, got)
    ensures DecodeFields(all[off..], got) == None
  {
    if off + 5 <= |all| {
      assert all[off..][1..5] == all[off + 1..off + 5];
    }
  }

  lemma AcceptStep(all: seq<byte>, off: nat, got: seq<Field>)
    requires GoodField(all, off, got)
    ensures var end := off + 5 + Num(all[off + 1..off + 5]);
            DecodeFields(all[off..], got)
            == DecodeFields(all[end..], got + [Field(all[off], all[off + 5..end])])
  {
    var tail := all[off..];
    assert tail[1..5] == all[off + 1..off + 5];
    var len := Num(tail[1..5]);
    assert tail[5..5 + len] == all[off + 5..off + 5 + len];
    assert tail[5 + len..] == all[off + 5 + len..];
  }

  /** The duplicate scan inside parse_frame. */
  method SeenTag(fields: seq<Field>, tag: byte) returns (seen: bool)
    ensures seen == HasTag(fields, tag)
  {
    for i := 0 to |fields|
      invariant forall j :: 0 <= j < i ==> fields[j].tag != tag
    {
      if fields[i].tag == tag {
        return true;
      }
    }
    return false;
  }

  /** One turn of the loop in parse_frame. */
  method ParseField(buf: array<byte>, start: nat, fields: seq<Field>)
    returns (ok: bool, f: Field, off: nat)
    requires start < buf.Length
    ensures ok == GoodField(buf[..], start, fields)
    ensures ok ==> off == start + 5 + Num(buf[..][start + 1..start + 5]) <= buf.Length
    ensures ok ==> f == Field(buf[start], buf[..][start + 5..off])
  {
    ghost var all := buf[..];
    off, f := start, Field(0, []);
    if |fields| >= MAX_FIELDS || buf.Length - off < 5 {
      return false, f, off;
    }
    var tag := buf[off];
    off := off + 1;
    if tag == 0 {
      return false, f, off;
    }
    assert buf[off..off + 4] == all[off..off + 4];
    var len := Num(buf[off..off + 4]);
    off := off + 4;
    if len > MAX_FIELD || len > buf.Length - off {
      return false, f, off;
    }
    var seen := SeenTag(fields, tag);
    if seen {
      return false, f, off;
    }
    assert buf[off..off + len] == all[off..off + len];
    return true, Field(tag, buf[off..off + len]), off + len;
  }

  lemma DecodeNothing(fields: seq<Field>)
    ensures DecodeFields([], fields) == Some(fields)
  {
  }

  /** The loop of parse_frame: one pass over the buffer with a moving offset. */
  method ParseFields(buf: array<byte>, start: nat) returns (ok: bool, fields: seq<Field>)
    requires start <= buf.Length
    ensures DecodeFields(buf[..][start..], []) == if ok then Some(fields) else None
  {
    hide DecodeFields, GoodField;
    ghost var all := buf[..];
    fields := [];
    var off := start;
    while off < buf.Length
      invariant start <= off <= buf.Length
      invariant DecodeFields(all[off..], fields) == DecodeFields(all[start..], [])
    {
      var good, f, next := ParseField(buf, off, fields);
      if !good {
        RejectStep(all, off, fields);
        return false, fields;
      }
      AcceptStep(all, off, fields);
      fields := fields + [f];
      off := next;
    }
    DecodeNothing(fields);
    assert all[off..] == [];
    return true, fields;
  }

  /** parse_frame: the header, then the fields. */
  method ParseFrame(buf: array<byte>) returns (ok: bool, frame: Frame)
    ensures ok == Decode(buf[..]).Some?
    ensures ok ==> frame == Decode(buf[..]).value
  {
    frame := Frame(0, 0, 0, []);
    if buf.Length < 7 || buf[0] != PROTOCOL_VERSION || buf[1] > KIND_EVENT {
      return false, frame;
    }
    assert buf[3..7] == buf[..][3..7];
    var fields;
    ok, fields := ParseFields(buf, 7);
    frame := Frame(buf[1], buf[2], Num(buf[3..7]), fields);
  }

  datatype AppendResult = Appended | BadArgument | NoRoom

  /** append_field: writes one field at len when it fits in cap. */
  method AppendField(buf: array<byte>, len: nat, tag: byte, data: seq<byte>)
    returns (rc: AppendResult, newLen: nat)
    modifies buf
    ensures rc == BadArgument <==> |data| > MAX_FIELD
    ensures rc == NoRoom <==> |data| <= MAX_FIELD && len + 5 + |data| > buf.Length
    ensures rc == Appended ==>
              newLen == len + 5 + |data| &&
              buf[..] == Splice(old(buf[..]), len, EncodeField(Field(tag, data)))
    ensures rc != Appended ==> newLen == len && buf[..] == old(buf[..])
  {
    newLen := len;
    if |data| > MAX_FIELD {
      return BadArgument, newLen;
    }
    if len > buf.Length || buf.Length - len < 5 + |data| {
      return NoRoom, newLen;
    }
    ghost var was := buf[..];
    Store(buf, newLen, [tag]);
    newLen := newLen + 1;
    Store(buf, newLen, U32(Low32(|data|)));
    newLen := newLen + 4;
    SpliceTwice(was, len, [tag], U32(Low32(|data|)));
    Store(buf, newLen, data);
    newLen := newLen + |data|;
    SpliceTwice(was, len, [tag] + U32(Low32(|data|)), data);
    rc := Appended;
  }
}
