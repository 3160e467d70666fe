/**
 How rewriting the fields of one key moves the fields of another. The
 synchroniser rewrites the version fields of the docs text and then the compat
 fields of the result; these lemmas say when the second rewrite leaves the
 first field of the first key readable.
 */
module FieldOrder {
  import opened Pattern
  import opened Fields

  /** Two keys the matcher cannot confuse: neither holds a quote, and they end
      in different characters that are not spaces. */
  predicate Distinguishable(key1: string, key2: string) {
    && '"' !in key1 && '"' !in key2
    && |key1| > 0 && |key2| > 0
    && key1[|key1| - 1] != key2[|key2| - 1]
    && !IsSpace(key1[|key1| - 1]) && !IsSpace(key2[|key2| - 1])
  }

  /** Two texts that agree on their first `m` characters agree on every slice
      inside them. */
  lemma PrefixSlice(s: string, t: string, m: nat, i: nat, j: nat)
    requires m <= |s| && m <= |t| && s[..m] == t[..m]
    requires i <= j <= m
    ensures s[i..j] == t[i..j]
  {
    forall k | i <= k < j
      ensures s[k] == t[k]
    {
      assert s[k] == s[..m][k] && t[k] == t[..m][k];
    }
  }

  /** The first field of `key2` cannot open before the first value of `key1`
      after the rewrite if it did not before: it would lie in the unchanged
      text before that value. */
  lemma NotBeforeValue(s: string, key1: string, key2: string, v: string, sp: Span)
    requires Distinguishable(key1, key2)
    requires |v| > 0 && '"' !in v
    requires Find(s, key1) == Some(sp)
    requires Find(s, key2).None? || sp.valueEnd < Find(s, key2).value.valueStart
    requires Find(Substitute(s, key1, v), key2).Some?
    ensures sp.valueStart <= Find(Substitute(s, key1, v), key2).value.valueStart
  {
    var u := Substitute(s, key1, v);
    var c := Find(u, key2).value;
    var vs := sp.valueStart;
    FirstValueAfterSubstitute(s, key1, v, sp);
    FindSound(u, key1);
    FindSound(u, key2);
    if c.valueStart < vs {
      PrefixSlice(u, s, vs, 0, c.valueEnd + 1);
      assert u[..c.valueEnd + 1] == s[..c.valueEnd + 1];
      FindAfterPrefixKept(u, s, key2, c);
      assert false;
    }
  }

  /** Nor can it open inside the new value, which holds no quote. */
  lemma NotInsideValue(s: string, key1: string, key2: string, v: string, sp: Span)
    requires Distinguishable(key1, key2)
    requires |v| > 0 && '"' !in v
    requires Find(s, key1) == Some(sp)
    requires Find(Substitute(s, key1, v), key2).Some?
    requires sp.valueStart < Find(Substitute(s, key1, v), key2).value.valueStart
    ensures sp.valueStart + |v| < Find(Substitute(s, key1, v), key2).value.valueStart
  {
    var u := Substitute(s, key1, v);
    var c := Find(u, key2).value;
    var vs := sp.valueStart;
    FirstValueAfterSubstitute(s, key1, v, sp);
    FindSound(u, key2);
    QuoteFreeSlice(u, vs, v);
  }

  /** A slice equal to a quote-free string holds no quote. */
  lemma QuoteFreeSlice(t: string, i: nat, w: string)
    requires i + |w| <= |t| && t[i..i + |w|] == w && '"' !in w
    ensures forall k :: i <= k < i + |w| ==> t[k] != '"'
  {
    forall k | i <= k < i + |w|
      ensures t[k] != '"'
    {
      assert t[k] == t[i..i + |w|][k - i] == w[k - i];
    }
  }

  /** After rewriting the fields of `key1` with `v`, the first field of `key2`
      still opens after the first field of `key1` closes, if it did before. */
  lemma OtherFieldStaysAfter(s: string, key1: string, key2: string, v: string, sp: Span)
    requires Distinguishable(key1, key2)
    requires |v| > 0 && '"' !in v
    requires Find(s, key1) == Some(sp)
    requires Find(s, key2).None? || sp.valueEnd < Find(s, key2).value.valueStart
    ensures var u := Substitute(s, key1, v);
            Find(u, key2).None? || sp.valueStart + |v| < Find(u, key2).value.valueStart
  {
    var u := Substitute(s, key1, v);
    if Find(u, key2).Some? {
      var c := Find(u, key2).value;
      NotBeforeValue(s, key1, key2, v, sp);
      FirstValueAfterSubstitute(s, key1, v, sp);
      FindSound(u, key1);
      FindSound(u, key2);
      DistinctKeysDistinctValues(u, key1, sp.(valueEnd := sp.valueStart + |v|), key2, c);
      NotInsideValue(s, key1, key2, v, sp);
    }
  }

  /** Rewriting the fields of `key1` and then those of `key2` with the same
      usable value leaves the first field of `key1` where the first rewrite put
      it, provided the first field of `key2` opened after it: reading `key1`
      back gives `v`. */
  lemma FirstFieldSurvives(s: string, key1: string, key2: string, v: string, sp: Span)
    requires Distinguishable(key1, key2)
    requires |v| > 0 && '"' !in v
    requires Find(s, key1) == Some(sp)
    requires Find(s, key2).None? || sp.valueEnd < Find(s, key2).value.valueStart
    ensures Extract(Substitute(Substitute(s, key1, v), key2, v), key1) == Some(v)
  {
    var u := Substitute(s, key1, v);
    var n := Substitute(u, key2, v);
    var sp' := sp.(valueEnd := sp.valueStart + |v|);
    FirstValueAfterSubstitute(s, key1, v, sp);
    OtherFieldStaysAfter(s, key1, key2, v, sp);
    match Find(u, key2)
    case None =>
      assert n == u;
      ExtractOfFind(u, key1, sp');
    case Some(c) =>
      FirstFieldKept(u, key1, key2, v, sp', c);
  }

  /** The rewrite of `key2` copies the text before its first value, so a first
      field of `key1` that closes before that value is read back unchanged. */
  lemma FirstFieldKept(u: string, key1: string, key2: string, v: string, sp: Span, c: Span)
    requires '"' !in key1 && '"' !in key2
    requires |v| > 0 && '"' !in v
    requires Find(u, key1) == Some(sp) && Find(u, key2) == Some(c)
    requires sp.valueEnd < c.valueStart
    requires u[sp.valueStart..sp.valueEnd] == v
    ensures Extract(Substitute(u, key2, v), key1) == Some(v)
  {
    var n := Substitute(u, key2, v);
    FirstValueAfterSubstitute(u, key2, v, c);
    PrefixSlice(n, u, c.valueStart, 0, sp.valueEnd + 1);
    PrefixSlice(n, u, c.valueStart, sp.valueStart, sp.valueEnd);
    FindAfterPrefixKept(u, n, key1, sp);
    ExtractOfFind(n, key1, sp);
  }
}
