/**
 * Widget names: the character filter applied to a widget's text before it is
 * used as an attribute name.
 *
 * The interpreter's notion of an alphanumeric character is a parameter
 * `isAlnum`, so every statement here holds for any such classification.
 */
module Names {

  /** A character that survives normalization. */
  predicate Allowed(isAlnum: char -> bool, c: char) {
    isAlnum(c) || c == '_'
  }

  /** Keeps, in order, the characters of `s` that are alphanumeric or `_`. */
  function Normalize(isAlnum: char -> bool, s: string): (r: string)
    ensures |r| <= |s|
    ensures forall k :: 0 <= k < |r| ==> Allowed(isAlnum, r[k])
  {
    if |s| == 0 then ""
    else if Allowed(isAlnum, s[0]) then [s[0]] + Normalize(isAlnum, s[1..])
    else Normalize(isAlnum, s[1..])
  }

  /** `idx` lists, in strictly increasing order, positions of `s` whose characters spell `r`. */
  predicate Embeds<T(==)>(idx: seq<nat>, r: seq<T>, s: seq<T>) {
    && |idx| == |r|
    && (forall k :: 0 <= k < |idx| ==> idx[k] < |s| && s[idx[k]] == r[k])
    && (forall k, l :: 0 <= k < l < |idx| ==> idx[k] < idx[l])
  }

  /** Shifting an embedding into `s[1..]` by one gives an embedding into `s`. */
  lemma {:induction false} ShiftEmbedding(tail: seq<nat>, r: string, s: string) returns (idx: seq<nat>)
    requires |s| > 0
    requires Embeds(tail, r, s[1..])
    ensures Embeds(idx, r, s)
    ensures forall p :: 1 <= p < |s| && p - 1 in tail ==> p in idx
    ensures forall k :: 0 <= k < |idx| ==> idx[k] > 0
  {
    idx := seq(|tail|, k requires 0 <= k < |tail| => tail[k] + 1);
    forall k | 0 <= k < |idx|
      ensures idx[k] < |s| && s[idx[k]] == r[k]
    {
      assert s[idx[k]] == s[1..][tail[k]];
    }
    forall p | 1 <= p < |s| && p - 1 in tail
      ensures p in idx
    {
      var k :| 0 <= k < |tail| && tail[k] == p - 1;
      assert idx[k] == p;
    }
  }

  /** An embedding that avoids position 0 extends to one that also keeps the first character. */
  lemma {:induction false} ConsEmbedding(idx: seq<nat>, r: string, s: string)
    requires |s| > 0
    requires Embeds(idx, r, s)
    requires forall k :: 0 <= k < |idx| ==> idx[k] > 0
    ensures Embeds([0] + idx, [s[0]] + r, s)
  {
    var idx' := [0] + idx;
    var r' := [s[0]] + r;
    assert forall k :: 1 <= k < |idx'| ==> idx'[k] == idx[k - 1] && r'[k] == r[k - 1];
  }

  /**
   * The output is an order-preserving subsequence of the input that omits
   * exactly the characters that are not allowed: `idx` picks the kept
   * positions, and every allowed position of `s` is among them.
   */
  lemma {:induction false} NormalizeEmbeds(isAlnum: char -> bool, s: string) returns (idx: seq<nat>)
    ensures Embeds(idx, Normalize(isAlnum, s), s)
    ensures forall p :: 0 <= p < |s| && Allowed(isAlnum, s[p]) ==> p in idx
  {
    if |s| == 0 {
      idx := [];
    } else {
      var tail := NormalizeEmbeds(isAlnum, s[1..]);
      idx := ShiftEmbedding(tail, Normalize(isAlnum, s[1..]), s);
      if Allowed(isAlnum, s[0]) {
        ConsEmbedding(idx, Normalize(isAlnum, s[1..]), s);
        idx := [0] + idx;
      }
      forall p | 1 <= p < |s| && Allowed(isAlnum, s[p])
        ensures p in idx
      {
        assert s[1..][p - 1] == s[p];
      }
    }
  }

  /** A string made only of allowed characters is left as it is, and only such a string. */
  lemma {:induction false} NormalizeFixes(isAlnum: char -> bool, s: string)
    ensures Normalize(isAlnum, s) == s <==> forall k :: 0 <= k < |s| ==> Allowed(isAlnum, s[k])
  {
    if |s| > 0 {
      NormalizeFixes(isAlnum, s[1..]);
      if !Allowed(isAlnum, s[0]) {
        assert |Normalize(isAlnum, s)| <= |s[1..]| < |s|;
      } else {
        assert forall k :: 1 <= k < |s| ==> s[1..][k - 1] == s[k];
      }
    }
  }

  /** Normalizing twice is the same as normalizing once. */
  lemma NormalizeIdempotent(isAlnum: char -> bool, s: string)
    ensures Normalize(isAlnum, Normalize(isAlnum, s)) == Normalize(isAlnum, s)
  {
    NormalizeFixes(isAlnum, Normalize(isAlnum, s));
  }
}
