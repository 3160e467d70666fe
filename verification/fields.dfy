/**
 Reading and rewriting the quoted value of a `key = "value"` field.

 `Extract` is `re.search(r'KEY\s*=\s*"([^"]+)"', s).group(1)`: the value of the
 leftmost field. `Substitute` is `re.sub(r'(KEY\s*=\s*")[^"]+(")', ..., s)` with
 the replacement `group 1 + v + group 2`: every non-overlapping field, found left
 to right, gets the value `v`, and all other text is copied. `Layout` cuts a
 text into the kept text and the field values that `Substitute` sees, which is
 how preservation and idempotence are stated.
 */
module Fields {
  import opened Pattern

  /** The value of the leftmost field `key\s*=\s*"([^"]+)"`, or None when the
      text has no such field anywhere. */
  function Extract(s: string, key: string): (r: Option<string>)
    ensures r.Some? ==> |r.value| > 0 && '"' !in r.value
    ensures r.None? ==> forall j :: 0 <= j <= |s| ==> MatchAt(s, key, j).None?
  {
    match Find(s, key)
    case None => None
    case Some(sp) =>
      FindSound(s, key);
      assert forall k :: 0 <= k < sp.valueEnd - sp.valueStart ==>
        s[sp.valueStart..sp.valueEnd][k] == s[sp.valueStart + k];
      Some(s[sp.valueStart..sp.valueEnd])
  }

  /** What `Extract` returns is the value of a field with no field to its
      left: the group `re.search` captures. */
  lemma ExtractSound(s: string, key: string)
    requires Extract(s, key).Some?
    ensures exists sp :: && Decomposes(s, key, sp)
                         && Extract(s, key).value == s[sp.valueStart..sp.valueEnd]
                         && forall j :: 0 <= j < sp.start ==> MatchAt(s, key, j).None?
  {
    FindSound(s, key);
  }

  /** The value of a field with no field to its left is what `Extract`
      returns; in particular `Extract` is None only when no field exists. */
  lemma ExtractComplete(s: string, key: string, sp: Span)
    requires Decomposes(s, key, sp)
    requires forall j :: 0 <= j < sp.start ==> MatchAt(s, key, j).None?
    ensures Extract(s, key) == Some(s[sp.valueStart..sp.valueEnd])
  {
    LeftmostMatch(s, key, sp);
  }

  /** Every field of `s`, left to right and without overlap, with its value
      replaced by `v`: the key, the spacing around `=` and both quotes are
      copied (groups 1 and 2 of the pattern), and so is all text between
      fields. Scanning resumes right after each closing quote; the pattern has
      no anchors and no look-behind, so the rest of the scan only depends on
      the remaining suffix. */
  function Substitute(s: string, key: string, v: string): (r: string)
    ensures Find(s, key).None? ==> r == s
    decreases |s|
  {
    match Find(s, key)
    case None => s
    case Some(sp) =>
      s[..sp.valueStart] + v + "\"" + Substitute(s[sp.valueEnd + 1..], key, v)
  }

  /** A piece of a text as `Substitute` sees it: text it copies, or the value
      of a field, which it replaces. */
  datatype Segment = Kept(text: string) | Field(value: string)

  function Text(seg: Segment): string {
    match seg
    case Kept(t) => t
    case Field(v) => v
  }

  /** The text a layout stands for. */
  function Flatten(segs: seq<Segment>): string {
    if segs == [] then [] else Text(segs[0]) + Flatten(segs[1..])
  }

  lemma FlattenAppend(a: seq<Segment>, b: seq<Segment>)
    ensures Flatten(a + b) == Flatten(a) + Flatten(b)
  {
    if a == [] {
      assert a + b == b;
    } else {
      assert (a + b)[0] == a[0];
      assert (a + b)[1..] == a[1..] + b;
      FlattenAppend(a[1..], b);
    }
  }

  lemma FlattenField(before: string, value: string, after: string)
    ensures Flatten([Kept(before), Field(value), Kept(after)]) == before + value + after
  {
    var segs := [Kept(before), Field(value), Kept(after)];
    assert segs[1..][1..][1..] == [];
    calc {
      Flatten(segs);
      before + Flatten(segs[1..]);
      before + (value + Flatten(segs[1..][1..]));
      before + (value + (after + Flatten(segs[1..][1..][1..])));
    }
    assert after + [] == after;
  }

  /** A text is its part before the value of a field, the value, the closing
      quote and the rest; the value holds no quote. */
  lemma AroundField(s: string, key: string, sp: Span)
    requires Decomposes(s, key, sp)
    ensures s == s[..sp.valueStart] + s[sp.valueStart..sp.valueEnd] + "\"" + s[sp.valueEnd + 1..]
    ensures '"' !in s[sp.valueStart..sp.valueEnd]
  {
    var value := s[sp.valueStart..sp.valueEnd];
    assert forall k :: 0 <= k < |value| ==> value[k] == s[sp.valueStart + k];
    assert s[..sp.valueEnd + 1] == s[..sp.valueStart] + value + "\"";
    assert s == s[..sp.valueEnd + 1] + s[sp.valueEnd + 1..];
  }

  /** `s` cut at the value boundaries of its fields, in the order `Substitute`
      visits them. */
  function Layout(s: string, key: string): (segs: seq<Segment>)
    ensures |segs| > 0
    decreases |s|
  {
    match Find(s, key)
    case None => [Kept(s)]
    case Some(sp) =>
      [Kept(s[..sp.valueStart]), Field(s[sp.valueStart..sp.valueEnd]), Kept("\"")]
        + Layout(s[sp.valueEnd + 1..], key)
  }

  /** Cutting a text into its layout loses nothing. */
  lemma {:induction false} LayoutFlatten(s: string, key: string)
    ensures Flatten(Layout(s, key)) == s
    decreases |s|
  {
    match Find(s, key)
    case None =>
      assert Flatten([Kept(s)]) == s + Flatten([]);
    case Some(sp) =>
      var rest := s[sp.valueEnd + 1..];
      var head := [Kept(s[..sp.valueStart]), Field(s[sp.valueStart..sp.valueEnd]), Kept("\"")];
      LayoutStep(s, key, sp);
      FindSound(s, key);
      AroundField(s, key, sp);
      FlattenAppend(head, Layout(rest, key));
      FlattenField(s[..sp.valueStart], s[sp.valueStart..sp.valueEnd], "\"");
      LayoutFlatten(rest, key);
  }

  /** Every field value set to `v`; kept text untouched. */
  function Fill(segs: seq<Segment>, v: string): (r: seq<Segment>)
    ensures |r| == |segs|
    ensures forall k :: 0 <= k < |r| ==> (if segs[k].Kept? then r[k] == segs[k] else r[k] == Field(v))
  {
    if segs == [] then [] else
      [match segs[0] case Kept(t) => Kept(t) case Field(_) => Field(v)] + Fill(segs[1..], v)
  }

  lemma FillAppend(a: seq<Segment>, b: seq<Segment>, v: string)
    ensures Fill(a + b, v) == Fill(a, v) + Fill(b, v)
  {
  }

  /** One step of `Substitute`: the text up to the first value, `v`, the
      closing quote, and the substitution of the rest. */
  lemma SubstituteStep(s: string, key: string, v: string, sp: Span)
    requires Find(s, key) == Some(sp)
    ensures Substitute(s, key, v) == s[..sp.valueStart] + v + "\"" + Substitute(s[sp.valueEnd + 1..], key, v)
  {
    assert Find(s, key).value == sp;
  }

  /** One step of `Layout`. */
  lemma LayoutStep(s: string, key: string, sp: Span)
    requires Find(s, key) == Some(sp)
    ensures Layout(s, key) ==
      [Kept(s[..sp.valueStart]), Field(s[sp.valueStart..sp.valueEnd]), Kept("\"")] + Layout(s[sp.valueEnd + 1..], key)
  {
  }

  lemma SplicedParts(s: string, vs: nat, w: string, u: string)
    requires vs <= |s|
    ensures var t := s[..vs] + w + "\"" + u;
            && t[..vs] == s[..vs]
            && t[vs..vs + |w|] == w
            && t[vs + |w| + 1..] == u
  {
    var t := s[..vs] + w + "\"" + u;
    assert t == s[..vs] + (w + ("\"" + u));
  }

  lemma FillField(before: string, value: string, after: string, rest: seq<Segment>, v: string)
    ensures Fill([Kept(before), Field(value), Kept(after)] + rest, v) == [Kept(before), Field(v), Kept(after)] + Fill(rest, v)
  {
    FillAppend([Kept(before), Field(value), Kept(after)], rest, v);
  }

  lemma FlattenFillField(before: string, value: string, after: string, rest: seq<Segment>, v: string)
    ensures Flatten(Fill([Kept(before), Field(value), Kept(after)] + rest, v)) == before + v + after + Flatten(Fill(rest, v))
  {
    FillField(before, value, after, rest, v);
    FlattenAppend([Kept(before), Field(v), Kept(after)], Fill(rest, v));
    FlattenField(before, v, after);
  }

  /** Substitution rewrites the text field by field: the kept text of the
      layout is copied unchanged and every field value, at every match,
      becomes `v`. Together with `Flatten(Layout(s, key)) == s` this says that
      nothing outside the value spans changes. */
  lemma {:induction false} SubstituteKeepsLayout(s: string, key: string, v: string)
    ensures Substitute(s, key, v) == Flatten(Fill(Layout(s, key), v))
    decreases |s|
  {
    match Find(s, key)
    case None =>
      assert Fill([Kept(s)], v) == [Kept(s)];
      assert Flatten([Kept(s)]) == s + Flatten([]);
    case Some(sp) =>
      var rest := s[sp.valueEnd + 1..];
      SubstituteStep(s, key, v, sp);
      LayoutStep(s, key, sp);
      FlattenFillField(s[..sp.valueStart], s[sp.valueStart..sp.valueEnd], "\"", Layout(rest, key), v);
      SubstituteKeepsLayout(rest, key, v);
  }

  /** After substituting a non-empty quote-free `v`, the text has the same
      layout as before with `v` in every field: the same fields are found at
      the same places (shifted by the change of value lengths), no field is
      lost and none is created. */
  lemma {:induction false} LayoutOfSubstitute(s: string, key: string, v: string)
    requires '"' !in key
    requires |v| > 0 && '"' !in v
    ensures Layout(Substitute(s, key, v), key) == Fill(Layout(s, key), v)
    decreases |s|
  {
    match Find(s, key)
    case None =>
      assert Fill([Kept(s)], v) == [Kept(s)];
    case Some(sp) =>
      var rest := s[sp.valueEnd + 1..];
      SubstituteStep(s, key, v, sp);
      LayoutAfterValueChange(s, key, sp, v, Substitute(rest, key, v));
      LayoutOfSubstitute(rest, key, v);
      LayoutStep(s, key, sp);
      FillField(s[..sp.valueStart], s[sp.valueStart..sp.valueEnd], "\"", Layout(rest, key), v);
  }

  /** The first step of the layout once the first value has been replaced by
      another non-empty quote-free value. */
  lemma LayoutAfterValueChange(s: string, key: string, sp: Span, w: string, u: string)
    requires '"' !in key
    requires Find(s, key) == Some(sp)
    requires |w| > 0 && '"' !in w
    ensures Layout(s[..sp.valueStart] + w + "\"" + u, key) ==
      [Kept(s[..sp.valueStart]), Field(w), Kept("\"")] + Layout(u, key)
  {
    var vs := sp.valueStart;
    FindAfterValueChange(s, key, sp, w, u);
    SplicedParts(s, vs, w, u);
    LayoutOfParts(s[..vs] + w + "\"" + u, key, sp.(valueEnd := vs + |w|), s[..vs], w, u);
  }

  /** `LayoutStep` with the three pieces of the text named. */
  lemma LayoutOfParts(t: string, key: string, sp: Span, before: string, value: string, after: string)
    requires Find(t, key) == Some(sp)
    requires t[..sp.valueStart] == before && t[sp.valueStart..sp.valueEnd] == value && t[sp.valueEnd + 1..] == after
    ensures Layout(t, key) == [Kept(before), Field(value), Kept("\"")] + Layout(after, key)
  {
    LayoutStep(t, key, sp);
  }

  /** Substituting the same non-empty quote-free value twice gives the text
      substituting it once gives. */
  lemma SubstituteIdempotent(s: string, key: string, v: string)
    requires '"' !in key
    requires |v| > 0 && '"' !in v
    ensures Substitute(Substitute(s, key, v), key, v) == Substitute(s, key, v)
  {
    var t := Substitute(s, key, v);
    SubstituteKeepsLayout(t, key, v);
    LayoutOfSubstitute(s, key, v);
    SubstituteKeepsLayout(s, key, v);
    assert Fill(Fill(Layout(s, key), v), v) == Fill(Layout(s, key), v);
  }

  /** Reading a field back after substituting a non-empty quote-free `v` into a
      text that has the field gives `v`. */
  lemma ReadAfterWrite(s: string, key: string, v: string)
    requires '"' !in key
    requires Extract(s, key).Some?
    requires |v| > 0 && '"' !in v
    ensures Extract(Substitute(s, key, v), key) == Some(v)
  {
    ReadAfterWriteAt(s, key, v, Find(s, key).value);
  }

  lemma ReadAfterWriteAt(s: string, key: string, v: string, sp: Span)
    requires '"' !in key
    requires Find(s, key) == Some(sp)
    requires |v| > 0 && '"' !in v
    ensures Extract(Substitute(s, key, v), key) == Some(v)
  {
    var sp' := sp.(valueEnd := sp.valueStart + |v|);
    FirstValueAfterSubstitute(s, key, v, sp);
    ExtractOfFind(Substitute(s, key, v), key, sp');
  }

  /** After substitution the first match is where it was, holding `v`, and
      the text before its value is unchanged. */
  lemma FirstValueAfterSubstitute(s: string, key: string, v: string, sp: Span)
    requires '"' !in key
    requires Find(s, key) == Some(sp)
    requires |v| > 0 && '"' !in v
    ensures var t := Substitute(s, key, v);
            && Find(t, key) == Some(sp.(valueEnd := sp.valueStart + |v|))
            && t[..sp.valueStart] == s[..sp.valueStart]
            && t[sp.valueStart..sp.valueStart + |v|] == v
  {
    var vs := sp.valueStart;
    var rest := Substitute(s[sp.valueEnd + 1..], key, v);
    SubstituteStep(s, key, v, sp);
    FindAfterValueChange(s, key, sp, v, rest);
    SplicedParts(s, vs, v, rest);
  }

  /** The value `Extract` returns is the one inside the first match. */
  lemma ExtractOfFind(s: string, key: string, sp: Span)
    requires Find(s, key) == Some(sp)
    ensures Extract(s, key) == Some(s[sp.valueStart..sp.valueEnd])
  {
  }
}
