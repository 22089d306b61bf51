/** The pure part of the excuse routes. What they do with the generated text: find the first case-insensitive
    `BELIEVABILITY:\s*(\d+)`, read its digits as the rating (or use the route's default), and
    remove that occurrence and trim what is left; plus the two small tables the routes use. */
module ExcuseRoutes {
  import opened Wrappers
  import Decimal

  const Label: string := "BELIEVABILITY:"

  /** ECMAScript white space and line terminators, the set both `\s` and `trim` use (the
      space separators listed are those of Unicode category Zs). */
  const Whitespace: set<char> := {
    ' ', '\t', '\n', '\U{000B}', '\U{000C}', '\r', '\U{00A0}', '\U{1680}',
    '\U{2000}', '\U{2001}', '\U{2002}', '\U{2003}', '\U{2004}', '\U{2005}',
    '\U{2006}', '\U{2007}', '\U{2008}', '\U{2009}', '\U{200A}',
    '\U{2028}', '\U{2029}', '\U{202F}', '\U{205F}', '\U{3000}', '\U{FEFF}'
  }

  predicate IsSpace(c: char) {
    c in Whitespace
  }

  predicate AllSpaces(s: string) {
    forall i :: 0 <= i < |s| ==> IsSpace(s[i])
  }

  /** The upper-case form the `i` flag compares by, for ASCII letters; every other character
      stands for itself. */
  function Upper(c: char): char {
    if 'a' <= c <= 'z' then (c as int - 32) as char else c
  }

  /** The label, in any letter case, starts at `p`. */
  predicate LabelAt(t: string, p: nat) {
    p + |Label| <= |t| && forall k :: 0 <= k < |Label| ==> Upper(t[p + k]) == Label[k]
  }

  /** The end of the longest run of white space starting at `p` (what the greedy `\s*` takes). */
  function SkipSpaces(t: string, p: nat): (q: nat)
    requires p <= |t|
    ensures p <= q <= |t|
    ensures forall i :: p <= i < q ==> IsSpace(t[i])
    ensures q == |t| || !IsSpace(t[q])
    decreases |t| - p
  {
    if p < |t| && IsSpace(t[p]) then SkipSpaces(t, p + 1) else p
  }

  /** The end of the longest run of digits starting at `p` (what the greedy `\d+` takes). */
  function SkipDigits(t: string, p: nat): (q: nat)
    requires p <= |t|
    ensures p <= q <= |t|
    ensures forall i :: p <= i < q ==> Decimal.IsDigit(t[i])
    ensures q == |t| || !Decimal.IsDigit(t[q])
    decreases |t| - p
  {
    if p < |t| && Decimal.IsDigit(t[p]) then SkipDigits(t, p + 1) else p
  }

  /** The pattern matches at `p`: the label, white space, then at least one digit. Backtracking
      into `\s*` cannot help, since a white-space character is never a digit. */
  predicate MatchAt(t: string, p: nat) {
    LabelAt(t, p) &&
    var q := SkipSpaces(t, p + |Label|);
    q < |t| && Decimal.IsDigit(t[q])
  }

  /** A match: it spans `start..end`, and its digits are `digits..end`. */
  datatype Marker = Marker(start: nat, digits: nat, end: nat)

  function MarkerAt(t: string, p: nat): (m: Marker)
    requires MatchAt(t, p)
    ensures m.start == p && p + |Label| <= m.digits < m.end <= |t|
    ensures AllSpaces(t[p + |Label|..m.digits])
    ensures Decimal.AllDigits(t[m.digits..m.end])
    ensures m.end == |t| || !Decimal.IsDigit(t[m.end])
  {
    var q := SkipSpaces(t, p + |Label|);
    var e := SkipDigits(t, q);
    var p0 := p + |Label|;
    assert AllSpaces(t[p0..q]) by {
      forall i | 0 <= i < q - p0 ensures IsSpace(t[p0..q][i]) {
        assert t[p0..q][i] == t[p0 + i];
      }
    }
    assert Decimal.AllDigits(t[q..e]) by {
      forall i | 0 <= i < e - q ensures Decimal.IsDigit(t[q..e][i]) {
        assert t[q..e][i] == t[q + i];
      }
    }
    Marker(p, q, e)
  }

  /** What `match` finds scanning from `from`: the leftmost match, or none. */
  function FindMarker(t: string, from: nat): (m: Option<Marker>)
    requires from <= |t|
    ensures m.Some? ==> from <= m.value.start && MatchAt(t, m.value.start) &&
                        m.value == MarkerAt(t, m.value.start) &&
                        forall p :: from <= p < m.value.start ==> !MatchAt(t, p)
    ensures m.None? ==> forall p :: from <= p <= |t| ==> !MatchAt(t, p)
    decreases |t| - from
  {
    if MatchAt(t, from) then Some(MarkerAt(t, from))
    else if from == |t| then None
    else
      var m := FindMarker(t, from + 1);
      ScanStep(t, from, from + 1, m);
      m
  }

  /** One step of the scan: a position without a match leaves the leftmost match as it was. */
  lemma ScanStep(t: string, from: nat, next: nat, m: Option<Marker>)
    requires from < next == from + 1 <= |t| && !MatchAt(t, from)
    requires m.Some? ==> next <= m.value.start && MatchAt(t, m.value.start) &&
                         m.value == MarkerAt(t, m.value.start) &&
                         forall p :: next <= p < m.value.start ==> !MatchAt(t, p)
    requires m.None? ==> forall p :: next <= p <= |t| ==> !MatchAt(t, p)
    ensures m.Some? ==> from <= m.value.start && MatchAt(t, m.value.start) &&
                        m.value == MarkerAt(t, m.value.start) &&
                        forall p :: from <= p < m.value.start ==> !MatchAt(t, p)
    ensures m.None? ==> forall p :: from <= p <= |t| ==> !MatchAt(t, p)
  {
    if m.Some? {
      NoMatchExtends(t, from, next, m.value.start);
    } else {
      NoMatchExtends(t, from, next, |t| + 1);
    }
  }

  /** Prepending a position without a match to a stretch without one. */
  lemma NoMatchExtends(t: string, from: nat, next: nat, stop: nat)
    requires next == from + 1 && !MatchAt(t, from)
    requires forall p :: next <= p < stop ==> !MatchAt(t, p)
    ensures forall p :: from <= p < stop ==> !MatchAt(t, p)
  {
  }

  /** The text has no match anywhere. */
  ghost predicate MarkerFree(t: string) {
    forall p :: 0 <= p <= |t| ==> !MatchAt(t, p)
  }

  /** No white space at either end. */
  predicate IsTrimmed(s: string) {
    s == [] || (!IsSpace(s[0]) && !IsSpace(s[|s| - 1]))
  }

  function TrimStart(s: string): (r: string)
    ensures |r| <= |s| && r == s[|s| - |r|..] && AllSpaces(s[..|s| - |r|])
    ensures r == [] || !IsSpace(r[0])
  {
    if s != [] && IsSpace(s[0]) then
      var r := TrimStart(s[1..]);
      assert s[1..][..|s| - 1 - |r|] == s[1..|s| - |r|];
      r
    else s
  }

  function TrimEnd(s: string): (r: string)
    ensures |r| <= |s| && r == s[..|r|] && AllSpaces(s[|r|..])
    ensures r == [] || !IsSpace(r[|r| - 1])
  {
    if s != [] && IsSpace(s[|s| - 1]) then
      var r := TrimEnd(s[..|s| - 1]);
      assert s[..|s| - 1][|r|..] == s[|r|..|s| - 1];
      assert s[|r|..] == s[|r|..|s| - 1] + [s[|s| - 1]];
      r
    else s
  }

  /** `trim`: white space taken off both ends (`TrimUnique` says which slice is left). */
  function Trim(s: string): (r: string)
    ensures IsTrimmed(r)
  {
    TrimEnd(TrimStart(s))
  }

  /** The parsed text: the excuse body and the rating. */
  datatype Parsed = Parsed(excuse: string, believabilityRating: nat)

  /** The marker handling a route performs on the generated `text`, with its default rating. */
  function ParseBelievability(text: string, defaultRating: nat): (r: Parsed)
    ensures IsTrimmed(r.excuse)
  {
    match FindMarker(text, 0)
    case None => Parsed(Trim(text), defaultRating)
    case Some(m) => Parsed(Trim(text[..m.start] + text[m.end..]), Decimal.Value(text[m.digits..m.end]))
  }

  /** Taking white space off the front leaves the suffix from the first non-space character. */
  lemma TrimStartUnique(s: string, i: nat)
    requires i <= |s| && AllSpaces(s[..i]) && (i == |s| || !IsSpace(s[i]))
    ensures TrimStart(s) == s[i..]
  {
    var r := TrimStart(s);
    var i' := |s| - |r|;
    SpacesBefore(s, i);
    SpacesBefore(s, i');
    if i' < |s| {
      assert r[0] == s[i'];
    }
    assert i' == i;
  }

  /** Taking white space off the end leaves the prefix up to the last non-space character. */
  lemma TrimEndUnique(s: string, j: nat)
    requires j <= |s| && AllSpaces(s[j..]) && (j == 0 || !IsSpace(s[j - 1]))
    ensures TrimEnd(s) == s[..j]
  {
    var r := TrimEnd(s);
    var j' := |r|;
    SpacesAfter(s, j);
    SpacesAfter(s, j');
    if j' > 0 {
      assert r[j' - 1] == s[j' - 1];
    }
    assert j' == j;
  }

  /** The white space of a prefix, position by position. */
  lemma SpacesBefore(s: string, i: nat)
    requires i <= |s| && AllSpaces(s[..i])
    ensures forall k :: 0 <= k < i ==> IsSpace(s[k])
  {
    forall k | 0 <= k < i ensures IsSpace(s[k]) {
      assert s[..i][k] == s[k];
    }
  }

  /** The white space of a suffix, position by position. */
  lemma SpacesAfter(s: string, j: nat)
    requires j <= |s| && AllSpaces(s[j..])
    ensures forall k :: j <= k < |s| ==> IsSpace(s[k])
  {
    forall k | j <= k < |s| ensures IsSpace(s[k]) {
      assert s[j..][k - j] == s[k];
    }
  }

  /** A text of white space only trims to the empty text. */
  lemma TrimAllSpaces(s: string)
    requires AllSpaces(s)
    ensures Trim(s) == []
  {
    assert s[..|s|] == s;
    TrimStartUnique(s, |s|);
    TrimEndUnique([], 0);
  }

  /** `trim` is the one trimmed slice of `s` that has only white space around it. */
  lemma TrimUnique(s: string, i: nat, j: nat)
    requires i <= j <= |s| && IsTrimmed(s[i..j]) && AllSpaces(s[..i]) && AllSpaces(s[j..])
    ensures Trim(s) == s[i..j]
  {
    if i < j {
      TrimNonEmpty(s, i, j);
    } else {
      assert s == s[..i] + s[j..];
      TrimAllSpaces(s);
    }
  }

  /** The non-empty case of `TrimUnique`. */
  lemma TrimNonEmpty(s: string, i: nat, j: nat)
    requires i < j <= |s| && IsTrimmed(s[i..j]) && AllSpaces(s[..i]) && AllSpaces(s[j..])
    ensures Trim(s) == s[i..j]
  {
    var a, n := s[i..], j - i;
    EndsOfSlice(s, i, j, a, n);
    TrimStartUnique(s, i);
    TrimEndUnique(a, n);
  }

  /** The ends of the slice `s[i..j]`, seen in `s` and in the suffix `a = s[i..]`. */
  lemma EndsOfSlice(s: string, i: nat, j: nat, a: string, n: nat)
    requires i < j <= |s| && a == s[i..] && n == j - i && IsTrimmed(s[i..j])
    ensures !IsSpace(s[i]) && !IsSpace(a[n - 1])
    ensures a[n..] == s[j..] && a[..n] == s[i..j]
  {
    assert s[i..j][0] == s[i] && s[i..j][n - 1] == s[j - 1] == a[n - 1];
  }

  /** Trimming is idempotent, and leaves exactly the trimmed texts unchanged. */
  lemma TrimFixedPoints(s: string)
    ensures Trim(s) == s <==> IsTrimmed(s)
    ensures Trim(Trim(s)) == Trim(s)
  {
    TrimOfTrimmed(s);
    TrimOfTrimmed(Trim(s));
  }

  lemma TrimOfTrimmed(s: string)
    ensures IsTrimmed(s) ==> Trim(s) == s
  {
    if IsTrimmed(s) {
      assert s[0..|s|] == s && s[..0] == [] && s[|s|..] == [];
      TrimUnique(s, 0, |s|);
    }
  }

  /** White space appended to a trimmed text is trimmed off again. */
  lemma TrimAppendedSpaces(b: string, sp: string)
    requires IsTrimmed(b) && AllSpaces(sp)
    ensures Trim(b + sp) == b
  {
    var t := b + sp;
    assert t[0..|b|] == b && t[..0] == [] && t[|b|..] == sp;
    TrimUnique(t, 0, |b|);
  }

  /** `SkipSpaces` is the only end of a white-space run at `p`. */
  lemma SkipSpacesUnique(t: string, p: nat, q: nat)
    requires p <= q <= |t|
    requires forall i :: p <= i < q ==> IsSpace(t[i])
    requires q == |t| || !IsSpace(t[q])
    ensures SkipSpaces(t, p) == q
  {
  }

  lemma SkipDigitsUnique(t: string, p: nat, q: nat)
    requires p <= q <= |t|
    requires forall i :: p <= i < q ==> Decimal.IsDigit(t[i])
    requires q == |t| || !Decimal.IsDigit(t[q])
    ensures SkipDigits(t, p) == q
  {
  }

  /** No match starts before `k`. */
  ghost predicate NoMatchBefore(t: string, k: nat) {
    forall p :: 0 <= p < k ==> !MatchAt(t, p)
  }

  /** The leftmost match is the one `FindMarker` reports. */
  lemma FindsLeftmost(t: string, q: nat)
    requires MatchAt(t, q) && NoMatchBefore(t, q)
    ensures FindMarker(t, 0) == Some(MarkerAt(t, q))
  {
    assert q <= |t|;
  }

  /** What the parse does once the scan has found its match `s0..e`, with digits `q..e`. */
  lemma ParseFound(t: string, s0: nat, q: nat, e: nat, defaultRating: nat)
    requires FindMarker(t, 0) == Some(Marker(s0, q, e))
    ensures s0 <= q <= e <= |t|
    ensures ParseBelievability(t, defaultRating) == Parsed(Trim(t[..s0] + t[e..]), Decimal.Value(t[q..e]))
  {
  }

  /** The parse of a text whose leftmost match starts at `p`: the rating is the value of that
      match's digit run, and the body is the text with only that occurrence cut out, trimmed. */
  lemma ParseAt(t: string, p: nat, defaultRating: nat)
    requires MatchAt(t, p) && NoMatchBefore(t, p)
    ensures var m := MarkerAt(t, p);
            ParseBelievability(t, defaultRating) ==
              Parsed(Trim(t[..p] + t[m.end..]), Decimal.Value(t[m.digits..m.end]))
  {
    FindsLeftmost(t, p);
  }

  /** The label in some letter case: it reads as `BELIEVABILITY:` under `Upper`. */
  predicate IsLabelSpelling(lab: string) {
    |lab| == |Label| && forall k :: 0 <= k < |Label| ==> Upper(lab[k]) == Label[k]
  }

  /** Only `:` reads as `:`. */
  lemma UpperColon(c: char)
    ensures Upper(c) == ':' <==> c == ':'
  {
  }

  lemma SkipSpacesShift(pre: string, s: string, p: nat)
    requires p <= |s|
    ensures SkipSpaces(pre + s, |pre| + p) == |pre| + SkipSpaces(s, p)
  {
    var t := pre + s;
    var q := SkipSpaces(s, p);
    assert forall i :: |pre| + p <= i < |pre| + q ==> t[i] == s[i - |pre|];
    assert |pre| + q < |t| ==> t[|pre| + q] == s[q];
    SkipSpacesUnique(t, |pre| + p, |pre| + q);
  }

  lemma SkipDigitsShift(pre: string, s: string, p: nat)
    requires p <= |s|
    ensures SkipDigits(pre + s, |pre| + p) == |pre| + SkipDigits(s, p)
  {
    var t := pre + s;
    var q := SkipDigits(s, p);
    assert forall i :: |pre| + p <= i < |pre| + q ==> t[i] == s[i - |pre|];
    assert |pre| + q < |t| ==> t[|pre| + q] == s[q];
    SkipDigitsUnique(t, |pre| + p, |pre| + q);
  }

  /** Whether a match starts at `k = |pre|` in `t = pre + s` depends on `s` alone, and so do the
      positions of its digits: the pattern never looks behind its start. */
  lemma MatchShift(t: string, pre: string, s: string, k: nat)
    requires t == pre + s && k == |pre|
    ensures MatchAt(t, k) <==> MatchAt(s, 0)
    ensures MatchAt(s, 0) ==>
              MarkerAt(t, k) == Marker(k, k + MarkerAt(s, 0).digits, k + MarkerAt(s, 0).end)
  {
    assert LabelAt(t, k) <==> LabelAt(s, 0) by {
      assert forall i :: 0 <= i < |s| ==> t[k + i] == s[i];
    }
    if |Label| <= |s| {
      SkipSpacesShift(pre, s, |Label|);
      var q := SkipSpaces(s, |Label|);
      assert q < |s| ==> t[k + q] == s[q];
      if MatchAt(s, 0) {
        SkipDigitsShift(pre, s, q);
      }
    }
  }

  /** The match at the start of `s`, seen in `pre + s`. */
  lemma MarkerShifted(t: string, pre: string, s: string, k: nat, q: nat, e: nat, q': nat, e': nat)
    requires t == pre + s && k == |pre| && q' == k + q && e' == k + e
    requires MatchAt(s, 0) && MarkerAt(s, 0) == Marker(0, q, e)
    ensures MatchAt(t, k) && MarkerAt(t, k) == Marker(k, q', e')
  {
    MatchShift(t, pre, s, k);
  }

  /** So in `pre + s`, when no match starts inside `pre` and one starts at the start of `s`, the
      scan finds that one. */
  lemma FoundShifted(t: string, pre: string, s: string, k: nat, q: nat, e: nat, q': nat, e': nat)
    requires t == pre + s && k == |pre| && q' == k + q && e' == k + e
    requires NoMatchBefore(t, k)
    requires MatchAt(s, 0) && MarkerAt(s, 0) == Marker(0, q, e)
    ensures FindMarker(t, 0) == Some(Marker(k, q', e'))
  {
    MarkerShifted(t, pre, s, k, q, e, q', e');
    FindsLeftmost(t, k);
  }

  /** No match starts in the white space `sep`: a match starts with a letter. */
  lemma NoMatchInSeparator(b: string, sep: string, tail: string, p: nat)
    requires AllSpaces(sep) && |b| <= p < |b| + |sep|
    ensures !MatchAt(b + sep + tail, p)
  {
    var t := b + sep + tail;
    assert t[p] == sep[p - |b|];
    assert Label[0] == 'B';
  }

  /** No match starts in `b` and runs into `sep + tail` when `tail` begins with the label: its
      `:` would have to fall on white space or on a letter of that label. */
  lemma NoMatchAcrossBoundary(b: string, sep: string, tail: string, p: nat)
    requires AllSpaces(sep) && LabelAt(tail, 0)
    requires p < |b| < p + |Label|
    ensures !MatchAt(b + sep + tail, p)
  {
    var t := b + sep + tail;
    var c := t[p + 13];
    var s0 := |b| + |sep|;
    if p + 13 < s0 {
      assert c == sep[p + 13 - |b|];
    } else {
      assert c == tail[p + 13 - s0];
      assert Upper(c) == Label[p + 13 - s0];
    }
    UpperColon(c);
    assert Label[13] == ':';
  }

  /** A match inside a marker-free `b` stays impossible once `sep + tail` follows, when `tail`
      begins with a letter: the white space after a label ends on a non-digit either way. */
  lemma NoMatchInsideBody(b: string, sep: string, tail: string, p: nat)
    requires MarkerFree(b) && AllSpaces(sep) && |tail| > 0 && Upper(tail[0]) == 'B'
    requires p + |Label| <= |b|
    ensures !MatchAt(b + sep + tail, p)
  {
    var t := b + sep + tail;
    LabelInPrefix(t, b, sep + tail, p);
    if LabelAt(t, p) {
      var p0 := p + |Label|;
      var qb := SkipSpaces(b, p0);
      assert !MatchAt(b, p);
      if qb < |b| {
        SpacesEndInPrefix(t, b, sep + tail, p0, qb);
      } else {
        SpacesRunPastPrefix(t, b, sep, tail, p0, |b| + |sep|);
      }
    }
  }

  /** A label that fits in the prefix `b` of `t` is there in `t` exactly when it is in `b`. */
  lemma LabelInPrefix(t: string, b: string, rest: string, p: nat)
    requires t == b + rest && p + |Label| <= |b|
    ensures LabelAt(t, p) <==> LabelAt(b, p)
  {
    assert forall i :: 0 <= i < |b| ==> t[i] == b[i];
  }

  /** A white-space run that ends inside the prefix `b` ends there in `t` too. */
  lemma SpacesEndInPrefix(t: string, b: string, rest: string, p0: nat, qb: nat)
    requires t == b + rest && p0 <= |b| && qb == SkipSpaces(b, p0) && qb < |b|
    ensures SkipSpaces(t, p0) == qb && t[qb] == b[qb]
  {
    assert forall i :: p0 <= i < qb ==> t[i] == b[i];
    SkipSpacesUnique(t, p0, qb);
  }

  /** A white-space run that reaches the end of `b` runs on through `sep` and stops at a `B`. */
  lemma SpacesRunPastPrefix(t: string, b: string, sep: string, tail: string, p0: nat, s0: nat)
    requires t == b + sep + tail && p0 <= |b| && SkipSpaces(b, p0) == |b| && s0 == |b| + |sep|
    requires AllSpaces(sep) && |tail| > 0 && Upper(tail[0]) == 'B'
    ensures SkipSpaces(t, p0) == s0 && !Decimal.IsDigit(t[s0])
  {
    assert forall i :: p0 <= i < |b| ==> t[i] == b[i];
    assert forall i :: |b| <= i < s0 ==> t[i] == sep[i - |b|];
    assert t[s0] == tail[0];
    SkipSpacesUnique(t, p0, s0);
  }

  /** No match starts before `tail` in `b + sep + tail`, when `b` has none and `tail` begins
      with the label. */
  lemma NoMatchBeforeLabel(t: string, b: string, sep: string, tail: string, k: nat)
    requires t == b + sep + tail && k == |b| + |sep|
    requires MarkerFree(b) && AllSpaces(sep) && LabelAt(tail, 0)
    ensures NoMatchBefore(t, k)
  {
    assert Upper(tail[0]) == Label[0] == 'B';
    forall p | 0 <= p < k ensures !MatchAt(t, p) {
      if p >= |b| {
        NoMatchInSeparator(b, sep, tail, p);
      } else if p + |Label| > |b| {
        NoMatchAcrossBoundary(b, sep, tail, p);
      } else {
        NoMatchInsideBody(b, sep, tail, p);
      }
    }
  }

  /** In `t = b + sep + tail`, with no match inside `b` and a match at the start of `tail`, the
      first match is that one. */
  lemma LeftmostIsLabel(t: string, b: string, sep: string, tail: string, k: nat, q: nat, e: nat,
                         q': nat, e': nat)
    requires t == b + sep + tail && k == |b| + |sep| && q' == k + q && e' == k + e
    requires MarkerFree(b) && AllSpaces(sep) && MatchAt(tail, 0) && MarkerAt(tail, 0) == Marker(0, q, e)
    ensures FindMarker(t, 0) == Some(Marker(k, q', e'))
  {
    NoMatchBeforeLabel(t, b, sep, tail, k);
    FoundShifted(t, b + sep, tail, k, q, e, q', e');
  }

  /** Slices of `t = pre + s` past `pre` are slices of `s`. */
  lemma SlicesPast(t: string, pre: string, s: string, k: nat, i: nat, j: nat, i': nat, j': nat)
    requires t == pre + s && k == |pre| && i <= j <= |s| && i' == k + i && j' == k + j
    ensures t[..k] == pre && t[j'..] == s[j..] && t[i'..j'] == s[i..j]
  {
  }

  /** The parse of `t = b + sep + tail` in the same case: the rating is read from the match's
      digits `q..e` in `tail`, and the body keeps `b`, `sep` and what follows the match. */
  lemma ParseWithTail(t: string, b: string, sep: string, tail: string, k: nat, q: nat, e: nat,
                      q': nat, e': nat, defaultRating: nat)
    requires t == b + sep + tail && k == |b| + |sep| && q' == k + q && e' == k + e
    requires MarkerFree(b) && AllSpaces(sep) && MatchAt(tail, 0) && MarkerAt(tail, 0) == Marker(0, q, e)
    ensures ParseBelievability(t, defaultRating) == Parsed(Trim(b + sep + tail[e..]), Decimal.Value(tail[q..e]))
  {
    LeftmostIsLabel(t, b, sep, tail, k, q, e, q', e');
    ParseFound(t, k, q', e', defaultRating);
    SlicesPast(t, b + sep, tail, k, q, e, q', e');
  }

  /** A label, white space `ws` and digits `d` that end the run make a match, and its digits
      are exactly `d`. */
  lemma MatchAtLabel(tail: string, lab: string, ws: string, d: string, rest: string)
    requires tail == lab + ws + d + rest
    requires IsLabelSpelling(lab) && AllSpaces(ws) && |d| > 0 && Decimal.AllDigits(d)
    requires |rest| == 0 || !Decimal.IsDigit(rest[0])
    ensures MatchAt(tail, 0)
    ensures MarkerAt(tail, 0) == Marker(0, |lab| + |ws|, |lab| + |ws| + |d|)
  {
    var q := |lab| + |ws|;
    var e := q + |d|;
    assert forall i :: 0 <= i < |lab| ==> tail[i] == lab[i];
    assert forall i :: 0 <= i < |ws| ==> tail[|lab| + i] == ws[i];
    assert forall i :: 0 <= i < |d| ==> tail[q + i] == d[i];
    assert LabelAt(tail, 0);
    SkipSpacesUnique(tail, |Label|, q);
    assert e < |tail| ==> tail[e] == rest[0];
    SkipDigitsUnique(tail, q, e);
  }

  /** The text `t = b + sep + lab + ws + d + rest`, with no match inside `b`, has its first
      match at `lab`: the rating is the value of the whole digit run `d`, and the body is what
      remains with that one occurrence removed, trimmed. Whatever `rest` holds, later markers
      included, stays. */
  lemma FirstMarkerParsed(t: string, b: string, sep: string, lab: string, ws: string, d: string,
                          rest: string, defaultRating: nat)
    requires t == b + sep + (lab + ws + d + rest)
    requires MarkerFree(b) && AllSpaces(sep) && IsLabelSpelling(lab) && AllSpaces(ws)
    requires |d| > 0 && Decimal.AllDigits(d)
    requires |rest| == 0 || !Decimal.IsDigit(rest[0])
    ensures ParseBelievability(t, defaultRating) == Parsed(Trim(b + sep + rest), Decimal.Value(d))
  {
    var tail := lab + ws + d + rest;
    MatchAtLabel(tail, lab, ws, d, rest);
    ParseWithTail(t, b, sep, tail, |b| + |sep|, |lab| + |ws|, |lab| + |ws| + |d|,
                  |b| + |sep| + |lab| + |ws|, |b| + |sep| + |lab| + |ws| + |d|, defaultRating);
    assert tail[|lab| + |ws| + |d|..] == rest;
    assert tail[|lab| + |ws|..|lab| + |ws| + |d|] == d;
  }

  /** A trimmed, marker-free body followed by ` BELIEVABILITY: ` and a digit run parses back to
      the body and the run's value. */
  lemma BodyAndDigitsParsed(b: string, d: string, defaultRating: nat)
    requires IsTrimmed(b) && MarkerFree(b) && |d| > 0 && Decimal.AllDigits(d)
    ensures ParseBelievability(b + " BELIEVABILITY: " + d, defaultRating) == Parsed(b, Decimal.Value(d))
  {
    MarkedText(b, d);
    LabelSpellsItself();
    assert AllSpaces(" ");
    FirstMarkerParsed(b + " BELIEVABILITY: " + d, b, " ", Label, " ", d, [], defaultRating);
    assert b + " " + [] == b + " ";
    TrimAppendedSpaces(b, " ");
  }

  /** The label as written is one of its spellings. */
  lemma LabelSpellsItself()
    ensures IsLabelSpelling(Label)
  {
  }

  /** The appended marker, split as the label's neighbourhood. */
  lemma MarkedText(b: string, d: string)
    ensures b + " BELIEVABILITY: " + d == b + " " + (Label + " " + d + [])
  {
    assert " BELIEVABILITY: " == " " + Label + " ";
  }

  /** Round trip: a trimmed, marker-free body followed by ` BELIEVABILITY: n` parses back to the
      body and `n`, for every `n` (the rating is not clamped to 0..100). */
  lemma RoundTrip(b: string, n: nat, defaultRating: nat)
    requires IsTrimmed(b) && MarkerFree(b)
    ensures ParseBelievability(b + " BELIEVABILITY: " + Decimal.FromNat(n), defaultRating) == Parsed(b, n)
  {
    var d := Decimal.FromNat(n);
    BodyAndDigitsParsed(b, d, defaultRating);
  }

  /** `parseInt` ignores leading zeros: a rating written `0n` reads as `n`. */
  lemma LeadingZeroRating(b: string, n: nat, defaultRating: nat)
    requires IsTrimmed(b) && MarkerFree(b)
    ensures ParseBelievability(b + " BELIEVABILITY: " + ("0" + Decimal.FromNat(n)), defaultRating) == Parsed(b, n)
  {
    var d := Decimal.FromNat(n);
    Decimal.ValueLeadingZero(d);
    BodyAndDigitsParsed(b, "0" + d, defaultRating);
  }

  /** A text without the character `:` has no marker. */
  lemma NoColonNoMarker(t: string)
    requires forall i :: 0 <= i < |t| ==> t[i] != ':'
    ensures MarkerFree(t)
  {
    assert Label[13] == ':';
    forall p | 0 <= p <= |t| ensures !LabelAt(t, p) {
      if p + |Label| <= |t| {
        UpperColon(t[p + 13]);
      }
    }
  }

  /** The worked example of a generation response. */
  lemma CarBrokeDownExample()
    ensures ParseBelievability("My car broke down. BELIEVABILITY: 72", GenerateDefaultRating)
            == Parsed("My car broke down.", 72)
  {
    var b := "My car broke down.";
    ExampleText(b, "72");
    ExampleBody(b);
    ExampleDigits("72");
    NoColonNoMarker(b);
    BodyAndDigitsParsed(b, "72", GenerateDefaultRating);
  }

  /** The example's text is its body, the label and its digits. */
  lemma ExampleText(b: string, d: string)
    requires b == "My car broke down." && d == "72"
    ensures b + " BELIEVABILITY: " + d == "My car broke down. BELIEVABILITY: 72"
  {
  }

  /** The example's body is trimmed and has no `:`. */
  lemma ExampleBody(b: string)
    requires b == "My car broke down."
    ensures IsTrimmed(b) && forall i :: 0 <= i < |b| ==> b[i] != ':'
  {
  }

  /** The example's digits read as 72. */
  lemma ExampleDigits(d: string)
    requires d == "72"
    ensures |d| > 0 && Decimal.AllDigits(d) && Decimal.Value(d) == 72
  {
    assert d[..1] == "7" && "7"[..0] == [];
  }

  /** The label with no digits after it is no match: the default applies and the label stays. */
  lemma LoneLabelKept(defaultRating: nat)
    ensures ParseBelievability("BELIEVABILITY:", defaultRating) == Parsed("BELIEVABILITY:", defaultRating)
  {
    var t := "BELIEVABILITY:";
    forall p | 0 <= p <= |t| ensures !MatchAt(t, p) {
      if LabelAt(t, p) {
        assert p == 0;
        SkipSpacesUnique(t, |Label|, |t|);
      }
    }
    assert IsTrimmed(t);
    TrimUnique(t, 0, |t|);
    assert t[0..|t|] == t;
  }

  /** A text with no match keeps its default rating and is only trimmed. */
  lemma NoMarkerDefault(text: string, defaultRating: nat)
    requires MarkerFree(text)
    ensures ParseBelievability(text, defaultRating) == Parsed(Trim(text), defaultRating)
  {
    assert FindMarker(text, 0).None?;
  }

  /** The row a route saves (and whose text and rating it returns). */
  datatype ExcuseRow = ExcuseRow(situation: string, tone: string, length: string,
                                 excuse: string, believabilityRating: nat)

  /** The rating the generate and adjust routes use when the text has no marker. */
  const GenerateDefaultRating: nat := 50
  /** The rating the ultimate route uses when the text has no marker. */
  const UltimateDefaultRating: nat := 0

  /** The generate and adjust routes: the request's situation, tone and length, with the text's
      body and rating, 50 when it has no marker. */
  function GeneratedRow(situation: string, tone: string, length: string, text: string): (row: ExcuseRow)
    ensures row.situation == situation && row.tone == tone && row.length == length
    ensures IsTrimmed(row.excuse)
    ensures MarkerFree(text) ==> row.excuse == Trim(text) && row.believabilityRating == 50
  {
    var p := ParseBelievability(text, GenerateDefaultRating);
    ExcuseRow(situation, tone, length, p.excuse, p.believabilityRating)
  }

  /** The ultimate route: always saved under the Easter-egg situation as an absurd elaborate
      story, with the text's body and rating, 0 when it has no marker. */
  function UltimateRow(text: string): (row: ExcuseRow)
    ensures row.situation == "ULTIMATE_EASTER_EGG" && row.tone == "Absurd" && row.length == "Elaborate story"
    ensures IsTrimmed(row.excuse)
    ensures MarkerFree(text) ==> row.excuse == Trim(text) && row.believabilityRating == 0
  {
    var p := ParseBelievability(text, UltimateDefaultRating);
    ExcuseRow("ULTIMATE_EASTER_EGG", "Absurd", "Elaborate story", p.excuse, p.believabilityRating)
  }

  /** The adjust route's instruction: `better` asks for a more believable excuse, and any other
      direction for a more absurd one. */
  function DirectionText(direction: string): (phrase: string)
    ensures direction == "better" <==> phrase == "more believable and realistic"
    ensures direction != "better" <==> phrase == "more absurd and over-the-top"
  {
    if direction == "better" then "more believable and realistic" else "more absurd and over-the-top"
  }
}
