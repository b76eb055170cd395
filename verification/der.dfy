/** DER elements with a one-byte tag: tlv and der of macula-pqc/src/signatures.rs. */
module Der {
  import opened Machine

  datatype Element = Element(tag: Byte, contents: seq<Byte>, rest: seq<Byte>)

  /** Bytes read as a number, most significant first. */
  function BigEndian(b: seq<Byte>): (n: nat) {
    if b == [] then 0 else BigEndian(b[..|b| - 1]) * 256 + b[|b| - 1]
  }

  /** The first n elements and what follows, if there are that many. */
  function SplitAtChecked(s: seq<Byte>, n: nat): (r: Option<(seq<Byte>, seq<Byte>)>)
    ensures r.Some? <==> n <= |s|
    ensures r.Some? ==> s == r.value.0 + r.value.1 && |r.value.0| == n
  {
    if n <= |s| then Some((s[..n], s[n..])) else None
  }

  /** The length field: one byte below 0x80, or 0x81 to 0x84 and as many bytes as its low bits say. */
  function LengthField(s: seq<Byte>): (r: Option<(nat, seq<Byte>)>)
    ensures r.Some? ==> |r.value.1| < |s| && s[|s| - |r.value.1|..] == r.value.1
  {
    if s == [] then None
    else
      var first, rest := s[0], s[1..];
      if first < 0x80 then Some((first, rest))
      else if 0x81 <= first <= 0x84 then
        match SplitAtChecked(rest, first % 0x80)
        case None => None
        case Some((bytes, after)) => Some((BigEndian(bytes), after))
      else None
  }

  /** One element and what follows it; total on every byte string. */
  function Tlv(input: seq<Byte>): (r: Option<Element>)
    ensures r.Some? ==> |input| >= 2 && r.value.tag == input[0]
    ensures r.Some? ==> |r.value.contents| + |r.value.rest| + 2 <= |input|
    ensures r.Some? ==> input[|input| - |r.value.contents| - |r.value.rest|..] == r.value.contents + r.value.rest
  {
    if input == [] then None
    else
      match LengthField(input[1..])
      case None => None
      case Some((len, after)) =>
        match SplitAtChecked(after, len)
        case None => None
        case Some((contents, rest)) => Some(Element(input[0], contents, rest))
  }

  /** The length field der writes: one, two or three bytes. */
  function LengthBytes(len: nat): (r: seq<Byte>) {
    if len <= 0x7F then [len]
    else if len <= 0xFF then [0x81, len]
    else [0x82, len / 256 % 256, len % 256]
  }

  function DerBytes(tag: Byte, contents: seq<Byte>): (r: seq<Byte>)
    ensures |r| == 1 + |LengthBytes(|contents|)| + |contents|
  {
    [tag] + LengthBytes(|contents|) + contents
  }

  lemma LowSixteen(len: nat)
    ensures len / 256 % 256 * 256 + len % 256 == len % 0x1_0000
  {
    var a := len / 256;
    var q, r := a / 256, a % 256 * 256 + len % 256;
    assert len == q * 0x1_0000 + r && 0 <= r < 0x1_0000;
    QuotientIs(q, 0x1_0000, r);
  }

  lemma CountOf(n: nat)
    requires 1 <= n <= 4
    ensures (0x80 + n) % 0x80 == n
  {
  }

  lemma Regroup(a: seq<Byte>, b: seq<Byte>, c: seq<Byte>)
    ensures a + b + c == a + (b + c)
  {
  }

  lemma Cut(b: seq<Byte>, after: seq<Byte>)
    ensures SplitAtChecked(b + after, |b|) == Some((b, after))
  {
    assert (b + after)[..|b|] == b && (b + after)[|b|..] == after;
  }

  lemma LongForm(first: Byte, rest: seq<Byte>, b: seq<Byte>, after: seq<Byte>)
    requires 0x81 <= first <= 0x84 && SplitAtChecked(rest, first - 0x80) == Some((b, after))
    ensures LengthField([first] + rest) == Some((BigEndian(b), after))
  {
    hide BigEndian, SplitAtChecked;
    CountOf(first - 0x80);
    assert ([first] + rest)[1..] == rest;
  }

  /** The long form with one to four bytes. */
  lemma LongLength(b: seq<Byte>, after: seq<Byte>)
    requires 1 <= |b| <= 4
    ensures LengthField([0x80 + |b|] + b + after) == Some((BigEndian(b), after))
  {
    hide BigEndian, SplitAtChecked, LengthField;
    Cut(b, after);
    LongForm(0x80 + |b|, b + after, b, after);
    Regroup([0x80 + |b|], b, after);
  }

  lemma TwoBytes(hi: Byte, lo: Byte)
    ensures BigEndian([hi, lo]) == hi * 256 + lo
  {
    assert [hi, lo][..1] == [hi] && [hi][..0] == [];
    assert BigEndian([]) == 0;
    assert BigEndian([hi]) == hi;
  }

  lemma OneByte(b: seq<Byte>)
    requires |b| == 1
    ensures BigEndian(b) == b[0]
  {
    assert b[..0] == [] && BigEndian([]) == 0;
  }

  /** What the three length forms say: the length, but only its lowest 16 bits. */
  lemma LengthOfBytes(len: nat, after: seq<Byte>)
    ensures LengthField(LengthBytes(len) + after) == Some((len % 0x1_0000, after))
  {
    if len <= 0x7F {
      assert (LengthBytes(len) + after)[1..] == after;
    } else if len <= 0xFF {
      hide LengthField;
      LongLength([len], after);
      OneByte([len]);
      assert [0x81] + [len] == LengthBytes(len);
    } else {
      hide LengthField;
      var hi, lo := len / 256 % 256, len % 256;
      LongLength([hi, lo], after);
      TwoBytes(hi, lo);
      LowSixteen(len);
      assert [0x82] + [hi, lo] == LengthBytes(len);
    }
  }

  /** Parsing undoes printing exactly when the contents are at most 65535 bytes: der writes two length bytes
      at most, and longer contents would come back cut off. */
  lemma TlvOfDer(tag: Byte, contents: seq<Byte>, rest: seq<Byte>)
    ensures Tlv(DerBytes(tag, contents) + rest) == Some(Element(tag, contents, rest)) <==> |contents| <= 0xFFFF
  {
    hide LengthField, LengthBytes;
    var len := |contents|;
    var input := DerBytes(tag, contents) + rest;
    assert input[1..] == LengthBytes(len) + (contents + rest);
    LengthOfBytes(len, contents + rest);
    var cut := len % 0x1_0000;
    if len <= 0xFFFF {
      assert (contents + rest)[..cut] == contents && (contents + rest)[cut..] == rest;
    } else {
      assert cut < len;
    }
  }

  /** What it writes parses back as it was, whatever follows, unless the contents are too long. */
  method Der(tag: Byte, contents: seq<Byte>) returns (out: seq<Byte>)
    ensures out == DerBytes(tag, contents)
    ensures forall rest :: Tlv(out + rest) == Some(Element(tag, contents, rest)) <==> |contents| <= 0xFFFF
  {
    var len := |contents|;
    out := [tag];
    if len <= 0x7F {
      out := out + [len];
    } else if len <= 0xFF {
      out := out + [0x81, len];
    } else {
      out := out + [0x82, len / 256 % 256, len % 256];
    }
    out := out + contents;
    forall rest: seq<Byte>
      ensures Tlv(out + rest) == Some(Element(tag, contents, rest)) <==> |contents| <= 0xFFFF
    {
      TlvOfDer(tag, contents, rest);
    }
  }

  // ----- exactly which strings parse -----

  /** The bytes that may stand for a length: itself below 0x80, or one to four bytes, most significant first,
      after their number. The shortest form is not asked for. */
  predicate IsLengthField(field: seq<Byte>, len: nat) {
    || (|field| == 1 && field[0] == len < 0x80)
    || (2 <= |field| <= 5 && field[0] == 0x80 + (|field| - 1) && BigEndian(field[1..]) == len)
  }

  function Laid(e: Element, field: seq<Byte>): (x: seq<Byte>) {
    [e.tag] + field + e.contents + e.rest
  }

  /** x begins with an element of this tag and these contents, and rest is what follows it. */
  ghost predicate IsElement(x: seq<Byte>, e: Element) {
    exists field :: IsLengthField(field, |e.contents|) && x == Laid(e, field)
  }

  /** The field that a parsed length was read from. */
  lemma FieldOf(s: seq<Byte>) returns (field: seq<Byte>)
    requires LengthField(s).Some?
    ensures IsLengthField(field, LengthField(s).value.0) && s == field + LengthField(s).value.1
  {
    hide BigEndian;
    if s[0] < 0x80 {
      field := [s[0]];
    } else {
      var n := s[0] % 0x80;
      field := s[..n + 1];
      assert field[1..] == s[1..][..n];
    }
  }

  lemma FieldParses(field: seq<Byte>, len: nat, after: seq<Byte>)
    requires IsLengthField(field, len)
    ensures LengthField(field + after) == Some((len, after))
  {
    if |field| == 1 {
      assert (field + after)[1..] == after;
    } else {
      hide BigEndian;
      var b := field[1..];
      LongLength(b, after);
      assert field + after == [0x80 + |b|] + b + after;
    }
  }

  lemma LaidParses(e: Element, field: seq<Byte>)
    requires IsLengthField(field, |e.contents|)
    ensures Tlv(Laid(e, field)) == Some(e)
  {
    hide IsLengthField, LengthField, SplitAtChecked;
    var after := e.contents + e.rest;
    var x := Laid(e, field);
    FieldParses(field, |e.contents|, after);
    Cut(e.contents, e.rest);
    Regroup([e.tag], field, e.contents);
    Regroup([e.tag], field + e.contents, e.rest);
    Regroup(field, e.contents, e.rest);
    assert x == [e.tag] + (field + after);
    assert x[0] == e.tag && x[1..] == field + after;
  }

  /** tlv finds an element exactly where there is one, with any of the lengths' forms. */
  lemma TlvExactly(x: seq<Byte>, e: Element)
    ensures Tlv(x) == Some(e) <==> IsElement(x, e)
  {
    hide IsLengthField, LengthField;
    if Tlv(x) == Some(e) {
      var field := FieldOf(x[1..]);
      assert x == Laid(e, field);
    }
    if IsElement(x, e) {
      hide Tlv;
      var field :| IsLengthField(field, |e.contents|) && x == Laid(e, field);
      LaidParses(e, field);
    }
  }

  /** What follows an element does not change it. */
  lemma TlvExtends(x: seq<Byte>, extra: seq<Byte>)
    requires Tlv(x).Some?
    ensures var e := Tlv(x).value; Tlv(x + extra) == Some(Element(e.tag, e.contents, e.rest + extra))
  {
    hide IsLengthField;
    var e := Tlv(x).value;
    var e' := Element(e.tag, e.contents, e.rest + extra);
    TlvExactly(x, e);
    var field :| IsLengthField(field, |e.contents|) && x == Laid(e, field);
    assert x + extra == Laid(e', field);
    TlvExactly(x + extra, e');
  }

  /** Among all encodings of an element that parse, der's is the shortest. */
  lemma DerIsShortest(input: seq<Byte>)
    requires Tlv(input).Some?
    ensures var e := Tlv(input).value; |e.contents| <= 0xFFFF ==> |DerBytes(e.tag, e.contents) + e.rest| <= |input|
  {
    var e := Tlv(input).value;
    var field := LengthField(input[1..]).value;
    var first := input[1];
    if first == 0x81 {
      OneByte(input[1..][1..][..1]);
    }
  }
}
