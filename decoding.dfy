/**
 * `__decodeText`: read the bits one at a time into a candidate, and whenever
 * the candidate is a key of the reverse table emit its value and start over.
 */
module Decoding {
  import opened BitStream

  /** What the loop emits from the point where the candidate is `current` and `rest` is still unread. */
  function DecodeFrom(current: string, rest: string, table: map<string, string>): string
    decreases |rest|
  {
    if rest == [] then ""
    else
      var candidate := current + [rest[0]];
      if candidate in table then table[candidate] + DecodeFrom("", rest[1..], table)
      else DecodeFrom(candidate, rest[1..], table)
  }

  /** The text decoded from `bits`; an unmatched candidate left at the end is dropped. */
  function Decode(bits: string, table: map<string, string>): string {
    DecodeFrom("", bits, table)
  }

  /** No key of the table is a proper prefix of another. */
  predicate PrefixFree(table: map<string, string>) {
    forall p, q :: p in table && q in table ==> !(p < q)
  }

  /** Reading a key, from any point inside it, emits its value once the key is complete, when no shorter prefix of it is a key. */
  lemma {:induction false} DecodeKey(u: string, j: nat, rest: string, table: map<string, string>)
    requires u in table && j < |u|
    requires forall k :: 0 < k < |u| ==> u[..k] !in table
    ensures DecodeFrom(u[..j], u[j..] + rest, table) == table[u] + DecodeFrom("", rest, table)
    decreases |u| - j
  {
    var input := u[j..] + rest;
    assert input[0] == u[j] && input[1..] == u[j + 1..] + rest;
    assert u[..j] + [u[j]] == u[..j + 1];
    if j + 1 == |u| {
      assert u[..j + 1] == u;
      assert u[j + 1..] + rest == rest;
    } else {
      DecodeKey(u, j + 1, rest, table);
    }
  }

  /**
   * Decoding inverts encoding: with non-empty, prefix-free codes whose reverse table maps
   * each code back to its symbol, decoding the codes of `t` followed by `rest` emits `t`
   * and then whatever `rest` decodes to.
   */
  lemma {:induction false} DecodeEncode(codes: map<char, string>, table: map<string, string>, t: string, rest: string)
    requires Encodable(codes, t)
    requires PrefixFree(table)
    requires forall c :: c in codes ==> codes[c] != "" && codes[c] in table && table[codes[c]] == [c]
    ensures DecodeFrom("", Encode(codes, t) + rest, table) == t + DecodeFrom("", rest, table)
  {
    if t == [] {
      assert Encode(codes, t) + rest == rest;
    } else {
      var u, tail := codes[t[0]], Encode(codes, t[1..]) + rest;
      NoShorterKey(u, table);
      DecodeEncode(codes, table, t[1..], rest);
      EncodeCons(codes, t, rest);
      DecodeKey(u, 0, tail, table);
      assert u[..0] == "" && u[0..] == u;
      ConsAppend(t, DecodeFrom("", rest, table));
    }
  }

  /** A non-empty sequence followed by `x` is its head, then its tail followed by `x`. */
  lemma ConsAppend<T>(t: seq<T>, x: seq<T>)
    requires t != []
    ensures t + x == [t[0]] + (t[1..] + x)
  {
    assert t == [t[0]] + t[1..];
  }

  /** In a prefix-free table no proper prefix of a key is a key. */
  lemma NoShorterKey(u: string, table: map<string, string>)
    requires PrefixFree(table) && u in table
    ensures forall k :: 0 < k < |u| ==> u[..k] !in table
  {
    forall k | 0 < k < |u| ensures u[..k] !in table {
      assert u[..k] < u;
    }
  }

  /** The encoding of a non-empty text, followed by `rest`, starts with the code of its first character. */
  lemma EncodeCons(codes: map<char, string>, t: string, rest: string)
    requires Encodable(codes, t) && t != []
    ensures Encode(codes, t) + rest == codes[t[0]] + (Encode(codes, t[1..]) + rest)
  {
  }

  /** Trailing bits that never complete a key are dropped without an error. */
  lemma {:induction false} UnmatchedTailDropped(current: string, rest: string, table: map<string, string>)
    requires forall k :: 0 < k <= |rest| ==> current + rest[..k] !in table
    ensures DecodeFrom(current, rest, table) == ""
    decreases |rest|
  {
    if rest != [] {
      assert rest[..1] == [rest[0]];
      forall k | 0 < k <= |rest| - 1 ensures (current + [rest[0]]) + rest[1..][..k] !in table {
        assert (current + [rest[0]]) + rest[1..][..k] == current + rest[..k + 1];
      }
      UnmatchedTailDropped(current + [rest[0]], rest[1..], table);
    }
  }

  /** The decoded text of a well-formed encoding: the trailing unmatched bits change nothing. */
  lemma DecodeEncodeTrailing(codes: map<char, string>, table: map<string, string>, t: string, junk: string)
    requires Encodable(codes, t)
    requires PrefixFree(table)
    requires forall c :: c in codes ==> codes[c] != "" && codes[c] in table && table[codes[c]] == [c]
    requires forall k :: 0 < k <= |junk| ==> junk[..k] !in table
    ensures Decode(Encode(codes, t) + junk, table) == t
  {
    DecodeEncode(codes, table, t, junk);
    forall k | 0 < k <= |junk| ensures "" + junk[..k] !in table {
      assert "" + junk[..k] == junk[..k];
    }
    UnmatchedTailDropped("", junk, table);
  }
}
