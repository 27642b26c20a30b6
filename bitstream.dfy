/**
 * The compressed payload: the concatenated codes of the text, the padding
 * header and the trailing zeros in front of and behind them, and the bytes
 * they are packed into (most significant bit first).
 */
module BitStream {
  import opened Wrappers
  import opened Collections
  import opened Bits
  import opened Frequency

  /** Every character of `text` has a code. */
  predicate Encodable(codes: map<char, string>, text: string) {
    forall i :: 0 <= i < |text| ==> text[i] in codes
  }

  /** The codes of the characters of `text`, concatenated in text order. */
  function Encode(codes: map<char, string>, text: string): string
    requires Encodable(codes, text)
  {
    if text == [] then "" else codes[text[0]] + Encode(codes, text[1..])
  }

  /** Encoding a concatenation concatenates the encodings. */
  lemma {:induction false} EncodeAppend(codes: map<char, string>, a: string, b: string)
    requires Encodable(codes, a) && Encodable(codes, b)
    ensures Encodable(codes, a + b)
    ensures Encode(codes, a + b) == Encode(codes, a) + Encode(codes, b)
  {
    if a == [] {
      assert a + b == b;
    } else {
      assert (a + b)[0] == a[0] && (a + b)[1..] == a[1..] + b;
      EncodeAppend(codes, a[1..], b);
    }
  }

  /** With binary codes the encoding is a bit string. */
  lemma {:induction false} EncodeIsBits(codes: map<char, string>, text: string)
    requires Encodable(codes, text)
    requires forall c :: c in codes ==> IsBits(codes[c])
    ensures IsBits(Encode(codes, text))
  {
    if text != [] {
      EncodeIsBits(codes, text[1..]);
    }
  }

  /** The sum, over the keys `order`, of each key's number of occurrences in `s` times its code length. */
  function WeightedLength(order: seq<char>, s: string, codes: map<char, string>): nat
    requires forall i :: 0 <= i < |order| ==> order[i] in codes
  {
    if order == [] then 0 else multiset(s)[order[0]] * |codes[order[0]]| + WeightedLength(order[1..], s, codes)
  }

  lemma {:induction false} WeightedLengthSnoc(order: seq<char>, s: string, x: char, codes: map<char, string>)
    requires forall i :: 0 <= i < |order| ==> order[i] in codes
    requires x in codes
    ensures WeightedLength(order, s + [x], codes) == WeightedLength(order, s, codes) + multiset(order)[x] * |codes[x]|
  {
    if order != [] {
      var k, rest := order[0], order[1..];
      WeightedLengthSnoc(rest, s, x, codes);
      assert order == [k] + rest;
      var m, r, len := multiset(s)[k], multiset(rest)[x], |codes[x]|;
      if k == x {
        assert multiset(s + [x])[k] == m + 1 && multiset(order)[x] == r + 1;
        MulDistrib(m, 1, len);
        MulDistrib(r, 1, len);
      } else {
        assert multiset(s + [x])[k] == m && multiset(order)[x] == r;
      }
    }
  }

  lemma MulDistrib(a: nat, b: nat, c: nat)
    ensures (a + b) * c == a * c + b * c
  {
  }

  lemma {:induction false} WeightedLengthEmpty(order: seq<char>, codes: map<char, string>)
    requires forall i :: 0 <= i < |order| ==> order[i] in codes
    ensures WeightedLength(order, "", codes) == 0
  {
    if order != [] {
      WeightedLengthEmpty(order[1..], codes);
    }
  }

  /**
   * The encoded length is the frequency-weighted sum of the code lengths: over the keys of
   * the frequency dictionary, in any order, each count times the length of that key's code.
   */
  lemma {:induction false} EncodedLength(codes: map<char, string>, text: string, order: seq<char>)
    requires Encodable(codes, text)
    requires Enumerates(order, FrequencyDict(text).Keys)
    ensures forall i :: 0 <= i < |order| ==> order[i] in codes
    ensures |Encode(codes, text)| == WeightedLength(order, text, codes)
  {
    forall i | 0 <= i < |order| ensures order[i] in codes {
      assert order[i] in order;
      assert order[i] in FrequencyDict(text);
      var j :| 0 <= j < |text| && text[j] == order[i];
    }
    WeightedLengthCovers(codes, text, order);
  }

  /** The weighted-length identity for every text whose characters the keys `order` cover. */
  lemma {:induction false} WeightedLengthCovers(codes: map<char, string>, text: string, order: seq<char>)
    requires Encodable(codes, text)
    requires NoDup(order) && forall i :: 0 <= i < |order| ==> order[i] in codes
    requires forall i :: 0 <= i < |text| ==> text[i] in order
    ensures |Encode(codes, text)| == WeightedLength(order, text, codes)
    decreases |text|
  {
    if text == [] {
      WeightedLengthEmpty(order, codes);
    } else {
      var p, x := text[..|text| - 1], text[|text| - 1];
      assert text == p + [x];
      WeightedLengthCovers(codes, p, order);
      EncodeAppend(codes, p, [x]);
      assert Encode(codes, [x]) == codes[x];
      WeightedLengthSnoc(order, p, x, codes);
      NoDupCounts(order);
    }
  }

  /** `8 - (len % 8)`: the number of zeros appended, from 1 to 8, bringing the length to a whole number of bytes. */
  function PadAmount(n: nat): (p: nat)
    ensures 1 <= p <= 8 && (n + p) % 8 == 0
  {
    8 - n % 8
  }

  /**
   * `__getPaddedEncodedText`: the eight-digit numeral of the padding amount `p` (what
   * `"{0:08b}".format(p)` writes, by `Bits.Format08bIsToBits`), then `s`, then `p` zeros.
   */
  function Pad(s: string): string {
    var p := PadAmount(|s|);
    ToBits(p, 8) + s + Zeros(p)
  }

  /** The header as `"{0:08b}".format(p)` writes it, in front of `s` and the zeros, is the padded text. */
  lemma PadFromParts(s: string, info: string, text: string)
    requires info == Format08b(PadAmount(|s|)) && text == s + Zeros(PadAmount(|s|))
    ensures info + text == Pad(s)
  {
    Format08bIsToBits(PadAmount(|s|));
  }

  /** The padded text is the eight-bit numeral of the padding amount, `s`, and that many zeros; its length is a whole number of bytes. */
  lemma PadShape(s: string)
    ensures var p := PadAmount(|s|);
      Pad(s) == ToBits(p, 8) + s + Zeros(p) && |Pad(s)| == 8 + |s| + p
    ensures |Pad(s)| % 8 == 0
    ensures IsBits(s) ==> IsBits(Pad(s))
  {
    var p := PadAmount(|s|);
    if IsBits(s) {
      var h, z := ToBits(p, 8), Zeros(p);
      assert IsBits(z);
      BitsConcat(h, s);
      BitsConcat(h + s, z);
    }
  }

  /**
   * `__removePadding`: read the padding amount `p` from the first eight bits with
   * `int(text[:8], 2)` and return `text[8:-p]`. An empty text makes `int` raise.
   * Python's slice rules apply: `-0` is `0`, and an end before the start gives "".
   */
  function RemovePadding(text: string): (r: Option<string>)
    requires IsBits(text)
    ensures r.None? <==> text == []
    ensures r.Some? && |text| >= 8 ==> r.value <= text[8..]
  {
    if text == [] then None
    else
      var header := text[..if |text| < 8 then |text| else 8];
      var p := BitsValue(header);
      var start := |header|;
      var end := if p == 0 || p > |text| then 0 else |text| - p;
      Some(if start < end then text[start..end] else "")
  }

  /** Removing the padding undoes adding it, for every bit string. */
  lemma PadRoundTrip(s: string)
    requires IsBits(s)
    ensures IsBits(Pad(s)) && RemovePadding(Pad(s)) == Some(s)
  {
    var p := PadAmount(|s|);
    PadShape(s);
    var t := Pad(s);
    assert t[..8] == ToBits(p, 8);
    Pow2Eight();
    ValueOfToBits(p, 8);
    assert t[8..|t| - p] == s;
  }

  /** A header of zero is not an error: the text after it is dropped and "" is returned. */
  lemma ZeroHeaderGivesEmpty(text: string)
    requires IsBits(text) && |text| >= 8 && BitsValue(text[..8]) == 0
    ensures RemovePadding(text) == Some("")
  {
  }

  /** `__getBytesArray`: `int(chunk, 2)` for each eight-character chunk, the last one possibly shorter. */
  function Pack(s: string): seq<Byte>
    requires IsBits(s)
  {
    if s == [] then []
    else
      var n := if |s| < 8 then |s| else 8;
      Pow2Monotone(n, 8);
      Pow2Eight();
      [BitsValue(s[..n]) as Byte] + Pack(s[n..])
  }

  /** Packing gives one byte per started eight bits. */
  lemma {:induction false} PackLength(s: string)
    requires IsBits(s)
    ensures |Pack(s)| == (|s| + 7) / 8
    decreases |s|
  {
    if s != [] {
      var n := if |s| < 8 then |s| else 8;
      PackLength(s[n..]);
    }
  }

  /** The chunk starting at `i` is the next byte of the packing. */
  lemma PackChunk(s: string, i: nat, end: nat)
    requires IsBits(s) && i < |s| && end == if i + 8 <= |s| then i + 8 else |s|
    ensures IsBits(s[i..end]) && BitsValue(s[i..end]) < 256
    ensures Pack(s[i..]) == [BitsValue(s[i..end]) as Byte] + Pack(s[end..])
  {
    var rest := s[i..];
    Pow2Monotone(end - i, 8);
    Pow2Eight();
    assert rest[..end - i] == s[i..end] && rest[end - i..] == s[end..];
  }

  /** One iteration of the packing loop: the bytes so far, the chunk at `i`, and the packing of the rest make up the whole packing. */
  lemma PackStep(s: string, i: nat, end: nat, bytes: seq<Byte>)
    requires IsBits(s) && i < |s| && end == if i + 8 <= |s| then i + 8 else |s|
    requires bytes + Pack(s[i..]) == Pack(s)
    ensures IsBits(s[i..end]) && BitsValue(s[i..end]) < 256
    ensures bytes + [BitsValue(s[i..end]) as Byte] + Pack(s[end..]) == Pack(s)
    ensures end == |s| ==> bytes + [BitsValue(s[i..end]) as Byte] == Pack(s)
  {
    PackChunk(s, i, end);
    if end == |s| {
      assert s[end..] == [];
    }
  }

  /** The decompression loop: `bin(b)[2:].rjust(8, '0')` for each byte, concatenated. */
  function Unpack(bytes: seq<Byte>): string {
    if bytes == [] then "" else Format08b(bytes[0]) + Unpack(bytes[1..])
  }

  lemma {:induction false} UnpackAppend(a: seq<Byte>, b: seq<Byte>)
    ensures Unpack(a + b) == Unpack(a) + Unpack(b)
  {
    if a == [] {
      assert a + b == b;
    } else {
      assert (a + b)[0] == a[0] && (a + b)[1..] == a[1..] + b;
      UnpackAppend(a[1..], b);
    }
  }

  /** Unpacking gives eight binary digits per byte. */
  lemma {:induction false} UnpackShape(bytes: seq<Byte>)
    ensures IsBits(Unpack(bytes)) && |Unpack(bytes)| == 8 * |bytes|
  {
    if bytes != [] {
      Format08bIsToBits(bytes[0]);
      UnpackShape(bytes[1..]);
    }
  }

  /** Unpacking the packed bytes of a whole number of bytes' worth of bits gives the bits back. */
  lemma {:induction false} UnpackPack(s: string)
    requires IsBits(s) && |s| % 8 == 0
    ensures Unpack(Pack(s)) == s
    decreases |s|
  {
    if s != [] {
      PackChunk(s, 0, 8);
      assert s[0..] == s && s[0..8] == s[..8];
      var b := BitsValue(s[..8]) as Byte;
      assert Pack(s) == [b] + Pack(s[8..]);
      UnpackPack(s[8..]);
      Format08bIsToBits(b);
      ToBitsOfValue(s[..8]);
      assert Unpack(Pack(s)) == Format08b(b) + Unpack(Pack(s[8..]));
      assert s == s[..8] + s[8..];
    }
  }

  /** Packing the unpacked bits of any bytes gives the bytes back. */
  lemma {:induction false} PackUnpack(bytes: seq<Byte>)
    ensures IsBits(Unpack(bytes)) && Pack(Unpack(bytes)) == bytes
  {
    UnpackShape(bytes);
    if bytes != [] {
      var s := Unpack(bytes);
      var head, tail := Format08b(bytes[0]), Unpack(bytes[1..]);
      assert s == head + tail;
      Format08bIsToBits(bytes[0]);
      UnpackShape(bytes[1..]);
      assert s[..8] == head && s[8..] == tail;
      PackChunk(s, 0, 8);
      assert s[0..] == s && s[0..8] == head;
      Pow2Eight();
      ValueOfToBits(bytes[0], 8);
      PackUnpack(bytes[1..]);
      assert bytes == [bytes[0]] + bytes[1..];
    }
  }
}
