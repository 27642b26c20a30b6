/** `collections.Counter(text)`: how often each character occurs. */
module Frequency {
  import opened Collections

  /** The frequency dictionary of `text`: exactly its characters, each with its number of occurrences. */
  function FrequencyDict(text: string): (freq: map<char, nat>)
    ensures forall c :: c in freq <==> c in text
    ensures forall c :: c in freq ==> freq[c] == multiset(text)[c] && freq[c] >= 1
  {
    if text == [] then map[]
    else
      var rest := FrequencyDict(text[..|text| - 1]);
      var c := text[|text| - 1];
      assert text == text[..|text| - 1] + [c];
      rest[c := (if c in rest then rest[c] else 0) + 1]
  }

  /** The sum of `freq[k]` over the keys `order`, taken in that order. */
  function SumOver(order: seq<char>, freq: map<char, nat>): nat
    requires forall i :: 0 <= i < |order| ==> order[i] in freq
  {
    if order == [] then 0 else freq[order[0]] + SumOver(order[1..], freq)
  }

  /** The sum over `order` of the occurrence counts in `s`. */
  function CountSum(order: seq<char>, s: string): nat {
    if order == [] then 0 else multiset(s)[order[0]] + CountSum(order[1..], s)
  }

  lemma {:induction false} CountSumSnoc(order: seq<char>, s: string, x: char)
    ensures CountSum(order, s + [x]) == CountSum(order, s) + multiset(order)[x]
  {
    if order != [] {
      CountSumSnoc(order[1..], s, x);
      assert order == [order[0]] + order[1..];
    }
  }

  /** Summing the counts over a list of distinct characters that covers `s` gives `|s|`. */
  lemma {:induction false} CountSumCovers(order: seq<char>, s: string)
    requires NoDup(order)
    requires forall i :: 0 <= i < |s| ==> s[i] in order
    ensures CountSum(order, s) == |s|
  {
    if s == [] {
      CountSumEmpty(order);
    } else {
      var p := s[..|s| - 1];
      var x := s[|s| - 1];
      assert s == p + [x];
      CountSumCovers(order, p);
      CountSumSnoc(order, p, x);
      NoDupCounts(order);
    }
  }

  lemma {:induction false} CountSumEmpty(order: seq<char>)
    ensures CountSum(order, "") == 0
  {
    if order != [] {
      CountSumEmpty(order[1..]);
    }
  }

  lemma {:induction false} SumOverCounts(order: seq<char>, text: string)
    requires forall i :: 0 <= i < |order| ==> order[i] in FrequencyDict(text)
    ensures SumOver(order, FrequencyDict(text)) == CountSum(order, text)
  {
    if order != [] {
      SumOverCounts(order[1..], text);
    }
  }

  /** The counts of the frequency dictionary, over its keys in any iteration order, sum to the length of the text. */
  lemma FrequencySum(text: string, order: seq<char>)
    requires Enumerates(order, FrequencyDict(text).Keys)
    ensures SumOver(order, FrequencyDict(text)) == |text|
  {
    SumOverCounts(order, text);
    CountSumCovers(order, text);
  }
}
