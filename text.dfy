/** Text normalisation of unpacked header lists (`decode_byte_list`). */
module Text {
  import opened Bytes
  import opened Struct

  const NUL: char := '\0'

  /** `bytes.decode()` on the ASCII bytes header text fields hold: byte `b` becomes code point `b`. */
  function DecodeText(b: seq<Byte>): (s: string)
    ensures |s| == |b|
    ensures forall i :: 0 <= i < |b| ==> s[i] as int == b[i]
  {
    seq(|b|, i requires 0 <= i < |b| => b[i] as char)
  }

  /** Code points below 256, the ones a header byte can hold. */
  predicate IsByteText(s: string)
  {
    forall i :: 0 <= i < |s| ==> s[i] as int < 256
  }

  /** The bytes that hold text `s`, whose code points are all below 256. */
  function EncodeText(s: string): (b: seq<Byte>)
    requires IsByteText(s)
    ensures |b| == |s|
    ensures DecodeText(b) == s
  {
    seq(|s|, i requires 0 <= i < |s| => s[i] as int)
  }

  lemma TextBytesRoundTrip(b: seq<Byte>)
    ensures IsByteText(DecodeText(b)) && EncodeText(DecodeText(b)) == b
  {
  }

  /** `re.sub('\x00', '', s)`: every NUL removed, wherever it stands. */
  function StripNul(s: string): (r: string)
    ensures |r| <= |s|
    ensures NUL !in r
  {
    if s == [] then []
    else
      assert s == [s[0]] + s[1..];
      (if s[0] == NUL then [] else [s[0]]) + StripNul(s[1..])
  }

  /** Stripping works piece by piece: the kept characters stay in their order. */
  lemma {:induction false} StripNulAppend(a: string, b: string)
    ensures StripNul(a + b) == StripNul(a) + StripNul(b)
  {
    if a == [] {
      assert a + b == b;
    } else {
      var head: string := if a[0] == NUL then [] else [a[0]];
      assert (a + b)[0] == a[0];
      assert (a + b)[1..] == a[1..] + b;
      assert StripNul(a + b) == head + StripNul(a[1..] + b);
      StripNulAppend(a[1..], b);
      assert StripNul(a) == head + StripNul(a[1..]);
      assert head + (StripNul(a[1..]) + StripNul(b)) == (head + StripNul(a[1..])) + StripNul(b);
    }
  }

  /** Every character other than NUL is kept as often as it occurs. */
  lemma {:induction false} StripNulKeeps(s: string, c: char)
    requires c != NUL
    ensures multiset(StripNul(s))[c] == multiset(s)[c]
  {
    if s != [] {
      StripNulKeeps(s[1..], c);
      var head: string := if s[0] == NUL then [] else [s[0]];
      assert s == [s[0]] + s[1..];
      assert StripNul(s) == head + StripNul(s[1..]);
      assert multiset(head)[c] == multiset([s[0]])[c];
    }
  }

  /** Text with no NUL is left exactly as it is. */
  lemma {:induction false} StripNulNoNul(s: string)
    requires NUL !in s
    ensures StripNul(s) == s
  {
    if s != [] {
      StripNulNoNul(s[1..]);
    }
  }

  lemma StripNulIdempotent(s: string)
    ensures StripNul(StripNul(s)) == StripNul(s)
  {
    StripNulNoNul(StripNul(s));
  }

  /** A NUL is dropped wherever it stands: in the middle of text as well as in trailing padding. */
  lemma StripNulInterior(a: string, b: string)
    ensures StripNul(a + [NUL] + b) == StripNul(a) + StripNul(b)
  {
    var nul: string := [NUL];
    assert nul[1..] == [];
    assert StripNul(nul) == [] + StripNul(nul[1..]);
    StripNulAppend(a + nul, b);
    StripNulAppend(a, nul);
  }

  /** `n` NUL characters: the padding of a fixed-width text field. */
  function NulPadding(n: nat): (p: string)
    ensures |p| == n && forall i :: 0 <= i < n ==> p[i] == NUL
  {
    seq(n, _ => NUL)
  }

  function ZeroBytes(n: nat): (z: seq<Byte>)
    ensures |z| == n && forall i :: 0 <= i < n ==> z[i] == 0
  {
    seq(n, _ => 0)
  }

  /** Any run of NUL padding vanishes. */
  lemma {:induction false} StripNulPadding(n: nat)
    ensures StripNul(NulPadding(n)) == []
  {
    if n > 0 {
      assert NulPadding(n)[1..] == NulPadding(n - 1);
      StripNulPadding(n - 1);
    }
  }

  /** A fixed-width text field of `s` padded with NULs decodes back to `s`. */
  lemma {:induction false} StripNulPadded(s: string, n: nat)
    requires NUL !in s
    ensures StripNul(s + NulPadding(n)) == s
  {
    StripNulAppend(s, NulPadding(n));
    StripNulNoNul(s);
    StripNulPadding(n);
  }

  /** The bytes of NUL-padded text `s`, `n` zero bytes of padding after it. */
  function PaddedText(s: string, n: nat): (b: seq<Byte>)
    requires IsByteText(s)
    ensures |b| == |s| + n
    ensures DecodeText(b) == s + NulPadding(n)
  {
    var b := EncodeText(s) + ZeroBytes(n);
    assert DecodeText(b) == s + NulPadding(n);
    b
  }

  /** One element of `decode_byte_list`: `bytes` become their text, with NULs removed
      when `stripNull` holds; every other element is left as it is. */
  function NormalizeField(f: Field, stripNull: bool): (r: Field)
    ensures !f.Raw? ==> r == f
    ensures f.Raw? ==> r.Text? && |r.chars| <= |f.bytes|
    ensures f.Raw? && !stripNull ==>
              |r.chars| == |f.bytes| && forall i :: 0 <= i < |f.bytes| ==> r.chars[i] as int == f.bytes[i]
    ensures f.Raw? && stripNull ==> NUL !in r.chars
  {
    match f
    case Raw(b) => Text(if stripNull then StripNul(DecodeText(b)) else DecodeText(b))
    case _ => f
  }

  /** A NUL-padded text field normalises to its text. */
  lemma PaddedField(s: string, n: nat)
    requires NUL !in s && IsByteText(s)
    ensures NormalizeField(Raw(PaddedText(s, n)), true) == Text(s)
  {
    StripNulPadded(s, n);
  }

  /** The list `decode_byte_list(headerList, stripNull)` returns. */
  function DecodedList(headerList: seq<Field>, stripNull: bool): (r: seq<Field>)
    ensures |r| == |headerList|
  {
    seq(|headerList|, i requires 0 <= i < |headerList| => NormalizeField(headerList[i], stripNull))
  }

  /** The shape of the result: same length, non-`bytes` elements untouched at the same index,
      `bytes` elements turned into text that with `stripNull` holds no NUL anywhere. */
  lemma DecodedListShape(headerList: seq<Field>, stripNull: bool, i: nat)
    requires i < |headerList|
    ensures |DecodedList(headerList, stripNull)| == |headerList|
    ensures !headerList[i].Raw? ==> DecodedList(headerList, stripNull)[i] == headerList[i]
    ensures headerList[i].Raw? ==> DecodedList(headerList, stripNull)[i].Text?
    ensures headerList[i].Raw? && stripNull ==>
              DecodedList(headerList, stripNull)[i].chars == StripNul(DecodeText(headerList[i].bytes))
    ensures headerList[i].Raw? && stripNull ==> NUL !in DecodedList(headerList, stripNull)[i].chars
    ensures headerList[i].Raw? && !stripNull ==>
              DecodedList(headerList, stripNull)[i].chars == DecodeText(headerList[i].bytes)
  {
  }

  /** Decoding an already decoded list changes nothing: no `bytes` are left in it. */
  lemma DecodedListIdempotent(headerList: seq<Field>, stripNull: bool, again: bool)
    ensures DecodedList(DecodedList(headerList, stripNull), again) == DecodedList(headerList, stripNull)
  {
  }

  /** `decode_byte_list`: copies the list and overwrites each position in turn. */
  method DecodeByteList(headerList: seq<Field>, stripNull: bool) returns (r: seq<Field>)
    ensures r == DecodedList(headerList, stripNull)
  {
    var temp := new Field[|headerList|](i requires 0 <= i < |headerList| => headerList[i]);
    var index := 0;
    while index < |headerList|
      invariant 0 <= index <= |headerList|
      invariant forall j :: 0 <= j < index ==> temp[j] == NormalizeField(headerList[j], stripNull)
      invariant forall j :: index <= j < |headerList| ==> temp[j] == headerList[j]
    {
      var value := headerList[index];
      if value.Raw? {
        var decoded := DecodeText(value.bytes);
        if stripNull {
          decoded := StripNul(decoded);
        }
        temp[index] := Text(decoded);
      } else {
        temp[index] := value;
      }
      index := index + 1;
    }
    r := temp[..];
  }
}
