/**
 A hand-written matcher for the one regular-expression shape the synchroniser uses,

     KEY \s* = \s* " [^"]+ "

 with a fixed literal KEY (`version` or `CodingTheoryUtils`). `Decomposes` is the
 declarative reading of the pattern (which positions hold the key, the spaces, `=`,
 the quotes and the value); `MatchAt` is the computable matcher and is proved to
 agree with it in both directions; `Find` is the leftmost match, as `re.search`
 reports it.
 */
module Pattern {

  datatype Option<+T> = None | Some(value: T)

  /** Python's `\s` for a str pattern: exactly the characters for which
      str.isspace() holds. No letter, digit, `=` or `"` is among them. */
  predicate IsSpace(c: char): (b: bool)
    ensures b ==> !('a' <= c <= 'z') && !('A' <= c <= 'Z') && !('0' <= c <= '9')
    ensures b ==> c != '=' && c != '"'
  {
    || c == ' '
    || '\t' <= c <= '\r'
    || '\U{1c}' <= c <= '\U{1f}'
    || c == '\U{85}' || c == '\U{a0}' || c == '\U{1680}'
    || '\U{2000}' <= c <= '\U{200a}'
    || c == '\U{2028}' || c == '\U{2029}' || c == '\U{202f}'
    || c == '\U{205f}' || c == '\U{3000}'
  }

  /** Where one match lies: the key starts at `start`, `=` is at `equals`, the
      opening quote is at `valueStart - 1`, the value is `[valueStart, valueEnd)`
      and the closing quote is at `valueEnd`. */
  datatype Span = Span(start: nat, equals: nat, valueStart: nat, valueEnd: nat)

  /** `sp` describes a match of `key\s*=\s*"[^"]+"` in `s`, read position by position. */
  ghost predicate Decomposes(s: string, key: string, sp: Span) {
    && sp.start + |key| <= sp.equals
    && sp.equals + 1 < sp.valueStart < sp.valueEnd < |s|
    && s[sp.start..sp.start + |key|] == key
    && (forall k :: sp.start + |key| <= k < sp.equals ==> IsSpace(s[k]))
    && s[sp.equals] == '='
    && (forall k :: sp.equals < k < sp.valueStart - 1 ==> IsSpace(s[k]))
    && s[sp.valueStart - 1] == '"'
    && (forall k :: sp.valueStart <= k < sp.valueEnd ==> s[k] != '"')
    && s[sp.valueEnd] == '"'
  }

  /** `key` occurs literally at position `i` of `s`. */
  predicate KeyAt(s: string, key: string, i: nat)
    requires i + |key| <= |s|
    decreases |key|
  {
    |key| == 0 || (s[i] == key[0] && KeyAt(s, key[1..], i + 1))
  }

  lemma {:induction false} KeyAtMeans(s: string, key: string, i: nat)
    requires i + |key| <= |s|
    ensures KeyAt(s, key, i) <==> s[i..i + |key|] == key
    decreases |key|
  {
    if |key| > 0 {
      assert s[i..i + |key|] == [s[i]] + s[i + 1..i + |key|];
      assert key == [key[0]] + key[1..];
      KeyAtMeans(s, key[1..], i + 1);
    }
  }

  /** Where the scanner stands once the key has been read: skipping the
      spaces before `=`; skipping the spaces between the `=` at `equals` and the
      opening quote; inside the value that starts at `valueStart`. */
  datatype Phase =
    | BeforeEquals
    | BeforeQuote(equals: nat)
    | InValue(equals: nat, valueStart: nat)

  /** The positions a phase remembers lie between the match start and the
      scan position. */
  predicate Reached(start: nat, phase: Phase, k: nat) {
    match phase
    case BeforeEquals => start <= k
    case BeforeQuote(eq) => start <= eq < k
    case InValue(eq, vs) => start <= eq < vs <= k
  }

  /** The rest of the pattern, from scan position `k` in `phase`, read at one
      character per step. Greedy `\s*` before `=` and before `"`, and greedy
      `[^"]+` before `"`, leave the regular-expression engine no alternative to
      backtrack into, so this deterministic scan accepts exactly when the
      pattern matches. */
  function Scan(s: string, start: nat, phase: Phase, k: nat): (r: Option<Span>)
    requires k <= |s| && Reached(start, phase, k)
    ensures r.Some? ==> r.value.start == start < r.value.valueStart < r.value.valueEnd < |s|
    decreases |s| - k
  {
    match phase
    case BeforeEquals =>
      if k < |s| && IsSpace(s[k]) then Scan(s, start, phase, k + 1)
      else if k < |s| && s[k] == '=' then Scan(s, start, BeforeQuote(k), k + 1)
      else None
    case BeforeQuote(eq) =>
      if k < |s| && IsSpace(s[k]) then Scan(s, start, phase, k + 1)
      else if k < |s| && s[k] == '"' then Scan(s, start, InValue(eq, k + 1), k + 1)
      else None
    case InValue(eq, vs) =>
      if k < |s| && s[k] != '"' then Scan(s, start, phase, k + 1)
      else if vs < k < |s| then Some(Span(start, eq, vs, k))
      else None
  }

  /** What is left to read of the match `sp` from position `k` in `phase`. */
  ghost predicate Completes(s: string, sp: Span, phase: Phase, k: nat) {
    && sp.valueStart < sp.valueEnd < |s|
    && s[sp.valueEnd] == '"'
    && match phase
       case BeforeEquals =>
         && k <= sp.equals && sp.equals + 1 < sp.valueStart
         && (forall j :: k <= j < sp.equals ==> IsSpace(s[j]))
         && s[sp.equals] == '='
         && (forall j :: sp.equals < j < sp.valueStart - 1 ==> IsSpace(s[j]))
         && s[sp.valueStart - 1] == '"'
         && (forall j :: sp.valueStart <= j < sp.valueEnd ==> s[j] != '"')
       case BeforeQuote(eq) =>
         && sp.equals == eq && k < sp.valueStart
         && (forall j :: k <= j < sp.valueStart - 1 ==> IsSpace(s[j]))
         && s[sp.valueStart - 1] == '"'
         && (forall j :: sp.valueStart <= j < sp.valueEnd ==> s[j] != '"')
       case InValue(eq, vs) =>
         && sp.equals == eq && sp.valueStart == vs && k <= sp.valueEnd
         && (forall j :: k <= j < sp.valueEnd ==> s[j] != '"')
  }

  /** Whatever the scanner accepts is the rest of a match. */
  lemma ScanSound(s: string, start: nat, phase: Phase, k: nat)
    requires k <= |s| && Reached(start, phase, k)
    requires Scan(s, start, phase, k).Some?
    ensures Completes(s, Scan(s, start, phase, k).value, phase, k)
  {
    match phase
    case BeforeEquals => ScanSoundBeforeEquals(s, start, k);
    case BeforeQuote(eq) => ScanSoundBeforeQuote(s, start, eq, k);
    case InValue(eq, vs) => ScanSoundInValue(s, start, eq, vs, k);
  }

  lemma {:induction false} ScanSoundInValue(s: string, start: nat, eq: nat, vs: nat, k: nat)
    requires k <= |s| && Reached(start, InValue(eq, vs), k)
    requires Scan(s, start, InValue(eq, vs), k).Some?
    ensures Completes(s, Scan(s, start, InValue(eq, vs), k).value, InValue(eq, vs), k)
    decreases |s| - k
  {
    if k < |s| && s[k] != '"' {
      ScanSoundInValue(s, start, eq, vs, k + 1);
    }
  }

  lemma {:induction false} ScanSoundBeforeQuote(s: string, start: nat, eq: nat, k: nat)
    requires k <= |s| && Reached(start, BeforeQuote(eq), k)
    requires Scan(s, start, BeforeQuote(eq), k).Some?
    ensures Completes(s, Scan(s, start, BeforeQuote(eq), k).value, BeforeQuote(eq), k)
    decreases |s| - k
  {
    if k < |s| && IsSpace(s[k]) {
      ScanSoundBeforeQuote(s, start, eq, k + 1);
    } else {
      ScanSoundInValue(s, start, eq, k + 1, k + 1);
    }
  }

  lemma {:induction false} ScanSoundBeforeEquals(s: string, start: nat, k: nat)
    requires k <= |s| && Reached(start, BeforeEquals, k)
    requires Scan(s, start, BeforeEquals, k).Some?
    ensures Completes(s, Scan(s, start, BeforeEquals, k).value, BeforeEquals, k)
    decreases |s| - k
  {
    if k < |s| && IsSpace(s[k]) {
      ScanSoundBeforeEquals(s, start, k + 1);
    } else {
      ScanSoundBeforeQuote(s, start, k, k + 1);
    }
  }

  /** The scanner accepts the rest of every match. */
  lemma {:induction false} ScanComplete(s: string, start: nat, phase: Phase, k: nat, sp: Span)
    requires k <= |s| && Reached(start, phase, k)
    requires sp.start == start && Completes(s, sp, phase, k)
    ensures Scan(s, start, phase, k) == Some(sp)
    decreases |s| - k
  {
    match phase
    case BeforeEquals =>
      if k < sp.equals {
        ScanComplete(s, start, phase, k + 1, sp);
      } else {
        assert !IsSpace('=');
        ScanComplete(s, start, BeforeQuote(k), k + 1, sp);
      }
    case BeforeQuote(eq) =>
      if k < sp.valueStart - 1 {
        ScanComplete(s, start, phase, k + 1, sp);
      } else {
        assert !IsSpace('"');
        ScanComplete(s, start, InValue(eq, k + 1), k + 1, sp);
      }
    case InValue(eq, vs) =>
      if k < sp.valueEnd {
        ScanComplete(s, start, phase, k + 1, sp);
      }
  }

  /** The match of the pattern that starts exactly at `i`, if any: the key,
      then the scanner. */
  function MatchAt(s: string, key: string, i: nat): (r: Option<Span>)
    requires i <= |s|
    ensures r.Some? ==> r.value.start == i < r.value.valueStart < r.value.valueEnd < |s|
  {
    if i + |key| <= |s| && KeyAt(s, key, i) then Scan(s, i, BeforeEquals, i + |key|) else None
  }

  /** Everything `MatchAt` reports is a match of the pattern. */
  lemma MatchAtSound(s: string, key: string, i: nat)
    requires i <= |s| && MatchAt(s, key, i).Some?
    ensures Decomposes(s, key, MatchAt(s, key, i).value)
  {
    KeyAtMeans(s, key, i);
    ScanSound(s, i, BeforeEquals, i + |key|);
  }

  /** Conversely, every decomposition is found by `MatchAt`: the matcher misses
      no match of the pattern. */
  lemma MatchAtComplete(s: string, key: string, sp: Span)
    requires Decomposes(s, key, sp)
    ensures MatchAt(s, key, sp.start) == Some(sp)
  {
    KeyAtMeans(s, key, sp.start);
    ScanComplete(s, sp.start, BeforeEquals, sp.start + |key|, sp);
  }

  /** The leftmost match starting at or after `from` (`re.search` from `from`). */
  function FindFrom(s: string, key: string, from: nat): (r: Option<Span>)
    requires from <= |s|
    ensures r.Some? ==> from <= r.value.start <= |s| && MatchAt(s, key, r.value.start) == r
    ensures forall j :: from <= j <= |s| && (r.None? || j < r.value.start) ==> MatchAt(s, key, j).None?
    decreases |s| - from
  {
    if MatchAt(s, key, from).Some? then MatchAt(s, key, from)
    else if from == |s| then None
    else FindFrom(s, key, from + 1)
  }

  /** The leftmost match in `s` (`re.search`). */
  function Find(s: string, key: string): (r: Option<Span>)
    ensures r.Some? ==> r.value.start <= |s| && MatchAt(s, key, r.value.start) == r
    ensures r.Some? ==> forall j :: 0 <= j < r.value.start ==> MatchAt(s, key, j).None?
    ensures r.None? ==> forall j :: 0 <= j <= |s| ==> MatchAt(s, key, j).None?
  {
    FindFrom(s, key, 0)
  }

  /** What `Find` reports is a match of the pattern. */
  lemma FindSound(s: string, key: string)
    requires Find(s, key).Some?
    ensures Decomposes(s, key, Find(s, key).value)
  {
    MatchAtSound(s, key, Find(s, key).value.start);
  }

  /** A match with no match to its left is the one `Find` reports. */
  lemma LeftmostMatch(s: string, key: string, sp: Span)
    requires Decomposes(s, key, sp)
    requires forall j :: 0 <= j < sp.start ==> MatchAt(s, key, j).None?
    ensures Find(s, key) == Some(sp)
  {
    MatchAtComplete(s, key, sp);
  }

  /** Inside a match of a quote-free key the only double quotes are the two
      delimiters of the value. */
  lemma QuoteInMatch(s: string, key: string, sp: Span, k: nat)
    requires '"' !in key
    requires Decomposes(s, key, sp)
    requires sp.start <= k < sp.valueEnd && s[k] == '"'
    ensures k == sp.valueStart - 1
  {
  }

  /** A match survives any change of the text outside its header, provided
      the value that now follows the opening quote is still a non-empty run of
      non-quotes closed by a quote. */
  lemma MatchWithNewValue(s: string, t: string, key: string, sp: Span, end: nat)
    requires Decomposes(s, key, sp)
    requires sp.valueStart <= |t|
    requires forall k :: sp.start <= k < sp.valueStart ==> t[k] == s[k]
    requires sp.valueStart < end < |t| && t[end] == '"'
    requires forall k :: sp.valueStart <= k < end ==> t[k] != '"'
    ensures Decomposes(t, key, sp.(valueEnd := end))
  {
  }

  /** A match of `t` left of a match `sp` of `s`, where `t` agrees with `s`
      before the value of `sp` and holds another non-empty value in its place,
      is already a match of `s` there. */
  lemma MatchLeftOfValueChange(s: string, t: string, key: string, sp: Span, end: nat, j: nat)
    requires '"' !in key
    requires Decomposes(s, key, sp)
    requires sp.valueStart <= |t|
    requires forall k :: 0 <= k < sp.valueStart ==> t[k] == s[k]
    requires sp.valueStart < end < |t| && t[end] == '"'
    requires forall k :: sp.valueStart <= k < end ==> t[k] != '"'
    requires j < sp.start && MatchAt(t, key, j).Some?
    ensures MatchAt(s, key, j).Some?
  {
    var m := MatchAt(t, key, j).value;
    MatchAtSound(t, key, j);
    if m.valueEnd < sp.valueStart {
      MatchWithNewValue(t, s, key, m, m.valueEnd);
      assert m.(valueEnd := m.valueEnd) == m;
      MatchAtComplete(s, key, m);
    } else {
      QuoteInMatch(t, key, m, sp.valueStart - 1);
      MatchWithNewValue(t, s, key, m, sp.valueEnd);
      MatchAtComplete(s, key, m.(valueEnd := sp.valueEnd));
    }
  }

  /** Left of the leftmost match `sp` of `s`, a text that changes only the
      value of `sp` and what follows it has no match either. */
  lemma NoMatchLeftOfValueChange(s: string, t: string, key: string, sp: Span, end: nat)
    requires '"' !in key
    requires Find(s, key) == Some(sp)
    requires sp.valueStart <= |t|
    requires forall k :: 0 <= k < sp.valueStart ==> t[k] == s[k]
    requires sp.valueStart < end < |t| && t[end] == '"'
    requires forall k :: sp.valueStart <= k < end ==> t[k] != '"'
    ensures forall j :: 0 <= j < sp.start ==> MatchAt(t, key, j).None?
  {
    FindSound(s, key);
    forall j | 0 <= j < sp.start
      ensures MatchAt(t, key, j).None?
    {
      if MatchAt(t, key, j).Some? {
        MatchLeftOfValueChange(s, t, key, sp, end, j);
      }
    }
  }

  /** Position facts about the text `s[..vs] + w + "\"" + u`. */
  lemma SplicedText(s: string, vs: nat, w: string, u: string)
    requires vs <= |s|
    ensures var t := s[..vs] + w + "\"" + u;
            && |t| == vs + |w| + 1 + |u|
            && (forall k :: 0 <= k < vs ==> t[k] == s[k])
            && (forall k :: vs <= k < vs + |w| ==> t[k] == w[k - vs])
            && t[vs + |w|] == '"'
  {
  }

  /** Replacing the value of the leftmost match by another non-empty quote-free
      value, and the text after its closing quote by anything, leaves that match
      the leftmost one: no match further left can appear. */
  lemma FindAfterValueChange(s: string, key: string, sp: Span, w: string, u: string)
    requires '"' !in key
    requires Find(s, key) == Some(sp)
    requires |w| > 0 && '"' !in w
    ensures Find(s[..sp.valueStart] + w + "\"" + u, key) == Some(sp.(valueEnd := sp.valueStart + |w|))
  {
    var vs := sp.valueStart;
    var t := s[..vs] + w + "\"" + u;
    FindSound(s, key);
    SplicedText(s, vs, w, u);
    assert forall k :: vs <= k < vs + |w| ==> t[k] != '"' by {
      assert forall k :: 0 <= k < |w| ==> w[k] != '"';
    }
    var changed := sp.(valueEnd := vs + |w|);
    MatchWithNewValue(s, t, key, sp, vs + |w|);
    assert Decomposes(t, key, changed);
    NoMatchLeftOfValueChange(s, t, key, sp, vs + |w|);
    LeftmostMatch(t, key, changed);
  }

  /** A text that agrees with `s` through a closing quote at `ve` splits around
      the value `s[vs..ve]`. */
  lemma SplitAroundValue(s: string, t: string, vs: nat, ve: nat)
    requires vs <= ve < |s| && ve < |t| && s[ve] == '"'
    requires t[..ve + 1] == s[..ve + 1]
    ensures t == s[..vs] + s[vs..ve] + "\"" + t[ve + 1..]
  {
    var r := s[..vs] + s[vs..ve] + "\"" + t[ve + 1..];
    assert |r| == |t|;
    forall k | 0 <= k < |t|
      ensures r[k] == t[k]
    {
      if k <= ve {
        assert t[k] == t[..ve + 1][k] == s[..ve + 1][k] == s[k];
      }
    }
  }

  /** A text that agrees with `s` up to and including the closing quote of the
      leftmost match of `s` has that same leftmost match. */
  lemma FindAfterPrefixKept(s: string, t: string, key: string, sp: Span)
    requires '"' !in key
    requires Find(s, key) == Some(sp)
    requires sp.valueEnd < |t| && t[..sp.valueEnd + 1] == s[..sp.valueEnd + 1]
    ensures Find(t, key) == Some(sp)
  {
    var w := s[sp.valueStart..sp.valueEnd];
    FindSound(s, key);
    SplitAroundValue(s, t, sp.valueStart, sp.valueEnd);
    assert '"' !in w by {
      assert forall k :: 0 <= k < |w| ==> w[k] == s[sp.valueStart + k];
    }
    FindAfterValueChange(s, key, sp, w, t[sp.valueEnd + 1..]);
    assert sp.(valueEnd := sp.valueStart + |w|) == sp;
  }

  /** Two fields whose keys end in different non-space characters never share
      an opening quote: the `=` before the quote and the key before the `=` are
      both pinned down by the spaces between them. */
  lemma DistinctKeysDistinctValues(s: string, key1: string, a: Span, key2: string, b: Span)
    requires |key1| > 0 && |key2| > 0
    requires key1[|key1| - 1] != key2[|key2| - 1]
    requires !IsSpace(key1[|key1| - 1]) && !IsSpace(key2[|key2| - 1])
    requires Decomposes(s, key1, a) && Decomposes(s, key2, b)
    ensures a.valueStart != b.valueStart
  {
    assert !IsSpace('=');
  }

  /** No match starts where the first character of the key is missing. */
  lemma NoMatchWithoutFirstChar(s: string, key: string, n: nat)
    requires |key| > 0 && n <= |s| && key[0] !in s[..n]
    ensures forall j :: 0 <= j < n ==> MatchAt(s, key, j).None?
  {
    forall j | 0 <= j < n
      ensures MatchAt(s, key, j).None?
    {
      assert s[j] == s[..n][j];
    }
  }

  /** A text without the key's first character holds no match at all. */
  lemma NoFindWithoutFirstChar(s: string, key: string)
    requires |key| > 0 && key[0] !in s
    ensures Find(s, key).None?
  {
    assert s[..|s|] == s;
    NoMatchWithoutFirstChar(s, key, |s|);
    assert MatchAt(s, key, |s|).None?;
  }
}
