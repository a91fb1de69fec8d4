/** The escape codec of path/local/pack.c: binary data as a null-terminated string. */
module Codec {
  import opened Seqs
  import opened Wrappers

  const ESC_CHAR: Byte := 27
  const NULL_CHAR: Byte := 0
  const EOT_CHAR: Byte := 4

  function Escaped(b: Byte): seq<Byte> {
    if b == NULL_CHAR then [ESC_CHAR, EOT_CHAR]
    else if b == ESC_CHAR then [ESC_CHAR, ESC_CHAR]
    else [b]
  }

  function Packed(data: seq<Byte>): seq<Byte> {
    if data == [] then [] else Escaped(data[0]) + Packed(data[1..])
  }

  /** A text that can stand before the terminator: no null in it, and no escape character without a
      partner. */
  predicate Text(t: seq<Byte>) {
    if t == [] then true
    else if t[0] == ESC_CHAR then |t| >= 2 && t[1] != NULL_CHAR && Text(t[2..])
    else t[0] != NULL_CHAR && Text(t[1..])
  }

  /** What a text stands for; anything but a second escape character counts as an escaped null. */
  function Decoded(t: seq<Byte>): seq<Byte>
    requires Text(t)
  {
    if t == [] then []
    else if t[0] == ESC_CHAR then [if t[1] == ESC_CHAR then ESC_CHAR else NULL_CHAR] + Decoded(t[2..])
    else [t[0]] + Decoded(t[1..])
  }

  /** The texts that packing produces: every escaped null is written with EOT. */
  predicate Canonical(t: seq<Byte>)
    requires Text(t)
  {
    if t == [] then true
    else if t[0] == ESC_CHAR then (t[1] == ESC_CHAR || t[1] == EOT_CHAR) && Canonical(t[2..])
    else Canonical(t[1..])
  }

  /** Packed data is a text without nulls, at most twice as long, and decodes to the data. */
  lemma {:induction false} PackedDecodes(data: seq<Byte>)
    ensures Text(Packed(data)) && Canonical(Packed(data)) && Decoded(Packed(data)) == data
    ensures NULL_CHAR !in Packed(data)
    ensures |data| <= |Packed(data)| <= 2 * |data|
  {
    if data != [] {
      var rest := Packed(data[1..]);
      PackedDecodes(data[1..]);
      var t := Escaped(data[0]) + rest;
      assert if |Escaped(data[0])| == 2 then t[2..] == rest else t[1..] == rest;
    }
  }

  /** The other way round exactly for the texts that packing produces. */
  lemma {:induction false} DecodedPacksIff(t: seq<Byte>)
    requires Text(t)
    ensures Packed(Decoded(t)) == t <==> Canonical(t)
  {
    if t != [] {
      var n := if t[0] == ESC_CHAR then 2 else 1;
      DecodedPacksIff(t[n..]);
      var d := Decoded(t);
      assert d[1..] == Decoded(t[n..]);
      assert Packed(d) == Escaped(d[0]) + Packed(d[1..]);
      assert t == t[..n] + t[n..];
      assert |Escaped(d[0])| == n;
      assert Packed(d)[n..] == Packed(d[1..]);
      assert Packed(d)[..n] == Escaped(d[0]);
    }
  }

  /** A text with EOT in place of whatever else stands for a null behind an escape character. */
  function Normal(t: seq<Byte>): seq<Byte>
    requires Text(t)
  {
    if t == [] then []
    else if t[0] == ESC_CHAR then [ESC_CHAR, if t[1] == ESC_CHAR then ESC_CHAR else EOT_CHAR] + Normal(t[2..])
    else [t[0]] + Normal(t[1..])
  }

  /** Packing what any text decodes to gives that text, as long as the text. */
  lemma {:induction false} DecodedPacksNormal(t: seq<Byte>)
    requires Text(t)
    ensures Packed(Decoded(t)) == Normal(t) && |Normal(t)| == |t|
  {
    if t != [] {
      var n := if t[0] == ESC_CHAR then 2 else 1;
      DecodedPacksNormal(t[n..]);
      DecodedFirst(t, n);
    }
  }

  lemma DecodedFirst(t: seq<Byte>, n: nat)
    requires Text(t) && t != [] && n == if t[0] == ESC_CHAR then 2 else 1
    requires Packed(Decoded(t[n..])) == Normal(t[n..]) && |Normal(t[n..])| == |t| - n
    ensures Packed(Decoded(t)) == Normal(t) && |Normal(t)| == |t|
  {
    assert Decoded(t)[1..] == Decoded(t[n..]);
    hide Text;
  }

  lemma {:induction false} PackedMore(data: seq<Byte>, b: Byte)
    ensures Packed(data + [b]) == Packed(data) + Escaped(b)
  {
    if data == [] {
      assert (data + [b])[1..] == [];
    } else {
      assert (data + [b])[1..] == data[1..] + [b];
      PackedMore(data[1..], b);
    }
  }

  /** pack_binary_data. */
  method PackBinaryData(len: int, data: seq<Byte>, str: array<Byte>)
    requires len <= |data| && str.Length >= 1 && str.Length >= 2 * len + 1
    modifies str
    ensures var packed := Packed(data[..if len < 0 then 0 else len]);
      && |packed| < str.Length && str[..|packed|] == packed && str[|packed|] == NULL_CHAR
      && str[|packed| + 1..] == old(str[..])[|packed| + 1..]
  {
    var p, i := 0, 0;
    assert data[..0] == [];
    while i < len
      invariant 0 <= i && (i <= len || i == 0)
      invariant p <= 2 * i && p <= str.Length && str[..p] == Packed(data[..i])
      invariant forall k :: p <= k < str.Length ==> str[k] == old(str[k])
    {
      assert data[..i + 1] == data[..i] + [data[i]];
      PackedMore(data[..i], data[i]);
      p := PutChar(str, p, data[i]);
      i := i + 1;
    }
    str[p] := NULL_CHAR;
  }

  /** The body of the loop of pack_binary_data. */
  method PutChar(str: array<Byte>, p: nat, b: Byte) returns (next: nat)
    requires p + 2 <= str.Length
    modifies str
    ensures p < next <= p + 2 && str[..next] == old(str[..p]) + Escaped(b)
    ensures forall k :: next <= k < str.Length ==> str[k] == old(str[k])
  {
    if b == NULL_CHAR {
      str[p] := ESC_CHAR;
      str[p + 1] := EOT_CHAR;
      next := p + 2;
    } else if b == ESC_CHAR {
      str[p] := ESC_CHAR;
      str[p + 1] := ESC_CHAR;
      next := p + 2;
    } else {
      str[p] := b;
      next := p + 1;
    }
  }

  /** Unpacking packed data into a buffer of any size. */
  method PackThenUnpack(data: seq<Byte>, len: nat) returns (r: int, back: array<Byte>)
    ensures back.Length == len
    ensures len > |data| ==> r == |data| - len && back[..|data|] == data
    ensures len == |data| ==> r == 0 && back[..] == data
    ensures len < |data| ==> r == 1 && back[..] == data[..len]
  {
    PackedDecodes(data);
    assert data[..|data|] == data;
    hide Packed, Decoded, Text;
    var str := new Byte[2 * |data| + 1];
    back := new Byte[len];
    PackBinaryData(|data|, data, str);
    assert Packed(data) + [NULL_CHAR] <= str[..];
    r := UnpackBinaryData(str[..], Packed(data), len, back);
    assert len <= |data| ==> back[..len] == back[..];
  }

  /** unpack_binary_data: too few characters, exactly enough, or too many. */
  method UnpackBinaryData(str: seq<Byte>, ghost text: seq<Byte>, len: int, data: array<Byte>) returns (r: int)
    requires Text(text) && text + [NULL_CHAR] <= str && len <= data.Length
    modifies data
    ensures var d, n := Decoded(text), if len < 0 then 0 else len;
      && r == (if |d| < n then |d| - n else if |d| == n then 0 else 1)
      && (var k := if |d| < n then |d| else n;
          data[..k] == d[..k] && data[k..] == old(data[..])[k..])
  {
    assert text[0..] == text && (text + [NULL_CHAR])[|text|] == NULL_CHAR;
    hide Text, Decoded;
    var s, i := 0, 0;
    while i < len
      invariant 0 <= i && (i <= len || i == 0) && 0 <= s <= |text|
      invariant Text(text[s..]) && Decoded(text) == data[..i] + Decoded(text[s..])
      invariant forall k :: i <= k < data.Length ==> data[k] == old(data[k])
    {
      DecodeNext(text, str, s);
      ghost var done, rest := data[..i], Decoded(text[s..])[if str[s] == NULL_CHAR then 0 else 1..];
      if str[s] == NULL_CHAR {
        return i - len;
      } else if str[s] == ESC_CHAR {
        s := s + 1;
        if str[s] == ESC_CHAR {
          data[i] := ESC_CHAR;
        } else {
          data[i] := NULL_CHAR;
        }
        s := s + 1;
      } else {
        data[i] := str[s];
        s := s + 1;
      }
      assert data[..i + 1] == done + [data[i]];
      Regroup(done, [data[i]], rest);
      i := i + 1;
    }
    DecodeNext(text, str, s);
    r := if str[s] == NULL_CHAR then 0 else 1;
  }

  /** One character of what is left of a text. */
  lemma DecodeNext(text: seq<Byte>, str: seq<Byte>, s: nat)
    requires s <= |text| && text + [NULL_CHAR] <= str && Text(text[s..])
    ensures str[s] == NULL_CHAR <==> s == |text|
    ensures s == |text| ==> Decoded(text[s..]) == []
    ensures s < |text| && str[s] != ESC_CHAR ==>
              Text(text[s + 1..]) && Decoded(text[s..]) == [str[s]] + Decoded(text[s + 1..])
    ensures s < |text| && str[s] == ESC_CHAR ==>
              && s + 2 <= |text| && Text(text[s + 2..])
              && Decoded(text[s..]) ==
                 [if str[s + 1] == ESC_CHAR then ESC_CHAR else NULL_CHAR] + Decoded(text[s + 2..])
  {
    var t := text[s..];
    assert forall k :: 0 <= k < |text| ==> str[k] == (text + [NULL_CHAR])[k] == text[k];
    assert str[|text|] == (text + [NULL_CHAR])[|text|];
    if t != [] {
      assert t[1..] == text[s + 1..];
      if |t| >= 2 {
        assert t[2..] == text[s + 2..];
      }
    }
  }
}
