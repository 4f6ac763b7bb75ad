/** The scan `preg_match_all('/(?P<argument>\w+):(?P<value>[\w+\-]+)/', s)`: every leftmost,
    non-overlapping, greedy match of the argument pattern, in order. */
module ArgScanner {
  import opened Wrappers
  import opened ArgGrammar

  /** A match anchored at the start of the subject: the two captured groups and where the match ends. */
  datatype Match = Match(arg: Arg, end: nat)

  /** The whole of `t` matches `\w+:[\w+\-]+`. */
  ghost predicate MatchesPattern(t: string) {
    exists q :: 0 < q < |t| && IsName(t[..q]) && t[q] == ':' && IsValue(t[q + 1..])
  }

  /** The match the pattern makes when tried at the start of `s`. A greedy `\w+` takes the whole
      word run (the colon is no word character, so backtracking into it never helps), and the
      greedy value group then takes the whole run of value characters after the colon. */
  function MatchAt(s: string): (r: Option<Match>)
    ensures r.Some? ==> 0 < r.value.end <= |s| && s[..r.value.end] == Token(r.value.arg)
    ensures r.Some? ==> WellFormed(r.value.arg)
  {
    var name := Run(s, Word);
    if |name| == 0 || |name| == |s| || s[|name|] != ':' then None
    else
      var value := Run(s[|name| + 1..], ValueChar);
      if |value| == 0 then None
      else
        assert s[..|name| + 1 + |value|] == name + ":" + value;
        Some(Match(Arg(name, value), |name| + 1 + |value|))
  }

  /** Any prefix of `s` that matches the pattern is no longer than the match `MatchAt` makes. */
  lemma MatchAtCovers(s: string, e: nat)
    requires e <= |s| && MatchesPattern(s[..e])
    ensures MatchAt(s).Some? && e <= MatchAt(s).value.end
  {
    var t := s[..e];
    var q :| 0 < q < |t| && IsName(t[..q]) && t[q] == ':' && IsValue(t[q + 1..]);
    var name := Run(s, Word);
    assert t[..q] <= s;
    RunUnique(s, Word, t[..q]);
    assert name == t[..q];
    var rest := s[q + 1..];
    assert t[q + 1..] <= rest;
    RunCovers(rest, ValueChar, t[q + 1..]);
  }

  /** `MatchAt` finds a match exactly when some prefix of `s` matches the pattern, and then
      it returns the longest such prefix: the greedy choice. */
  lemma MatchAtLongest(s: string)
    ensures MatchAt(s).None? <==> forall e :: 0 <= e <= |s| ==> !MatchesPattern(s[..e])
    ensures MatchAt(s).Some? ==>
      && MatchesPattern(s[..MatchAt(s).value.end])
      && forall e :: MatchAt(s).value.end < e <= |s| ==> !MatchesPattern(s[..e])
  {
    forall e | 0 <= e <= |s| && MatchesPattern(s[..e])
      ensures MatchAt(s).Some? && e <= MatchAt(s).value.end
    {
      MatchAtCovers(s, e);
    }
    if MatchAt(s).Some? {
      var m := MatchAt(s).value;
      var t := s[..m.end];
      var q := |m.arg.name|;
      assert t == m.arg.name + ":" + m.arg.value;
      assert t[..q] == m.arg.name && t[q] == ':' && t[q + 1..] == m.arg.value;
    }
  }

  /** All matches, leftmost first: a match tried at the current position, else at the next
      one; after a match the search resumes where it ended, so matches never overlap. */
  function Scan(s: string): (r: seq<Arg>)
    ensures forall i :: 0 <= i < |r| ==> WellFormed(r[i])
    decreases |s|
  {
    if |s| == 0 then []
    else
      match MatchAt(s)
      case Some(m) => [m.arg] + Scan(s[m.end..])
      case None => Scan(s[1..])
  }

  /** A character outside `\w` can never start a match, so the scan skips it. */
  lemma ScanSkip(c: char, s: string)
    requires !IsWordChar(c)
    ensures Scan([c] + s) == Scan(s)
  {
    assert Run([c] + s, Word) == "";
    assert ([c] + s)[1..] == s;
  }

  /** A well-formed token followed by text that cannot extend its value is matched as exactly that token. */
  lemma ScanToken(a: Arg, rest: string)
    requires WellFormed(a)
    requires |rest| > 0 ==> !InClass(rest[0], ValueChar)
    ensures Scan(Token(a) + rest) == [a] + Scan(rest)
  {
    var s := Token(a) + rest;
    MatchAtToken(a, rest);
    assert s[|Token(a)|..] == rest;
  }

  lemma MatchAtToken(a: Arg, rest: string)
    requires WellFormed(a)
    requires |rest| > 0 ==> !InClass(rest[0], ValueChar)
    ensures MatchAt(Token(a) + rest) == Some(Match(a, |Token(a)|))
  {
    var s := Token(a) + rest;
    var after := a.value + rest;
    TokenRuns(a, rest);
    assert s[|a.name| + 1..] == after;
    assert |Token(a)| == |a.name| + 1 + |a.value|;
  }

  /** The greedy runs over a token followed by `rest` are its name and its value. */
  lemma TokenRuns(a: Arg, rest: string)
    requires WellFormed(a)
    requires |rest| > 0 ==> !InClass(rest[0], ValueChar)
    ensures Run(Token(a) + rest, Word) == a.name
    ensures (Token(a) + rest)[|a.name|] == ':'
    ensures Run(a.value + rest, ValueChar) == a.value
  {
    var tail := [':'] + (a.value + rest);
    assert Token(a) + rest == a.name + tail;
    RunConcat(a.name, tail, Word);
    RunConcat(a.value, rest, ValueChar);
  }

  /** Without a colon followed by a value character there is nothing to match. */
  lemma {:induction false} ScanNoMatch(s: string)
    requires forall i :: 0 <= i < |s| - 1 && s[i] == ':' ==> !InClass(s[i + 1], ValueChar)
    ensures Scan(s) == []
  {
    if |s| > 0 {
      var name := Run(s, Word);
      if |name| > 0 && |name| < |s| && s[|name|] == ':' && |name| + 1 < |s| {
        assert !InClass(s[|name| + 1], ValueChar);
        assert MatchAt(s).None?;
      }
      assert MatchAt(s).None?;
      ScanNoMatch(s[1..]);
    }
  }

  /** No match of the pattern starts at any position in `[lo, hi)` of `s`. */
  ghost predicate NoMatchIn(s: string, lo: nat, hi: nat) {
    forall p :: lo <= p < hi && p <= |s| ==> MatchAt(s[p..]).None?
  }

  /** Where the `i`-th match ends. */
  function EndOf(toks: seq<Arg>, ps: seq<nat>, i: nat): nat
    requires i < |toks| && i < |ps|
  {
    ps[i] + |Token(toks[i])|
  }

  /** The match made at position `p` of `s` is `tok`, spelled out there. */
  ghost predicate MatchedAt(s: string, p: nat, tok: Arg) {
    && p + |Token(tok)| <= |s|
    && MatchAt(s[p..]) == Some(Match(tok, |Token(tok)|))
    && s[p..p + |Token(tok)|] == Token(tok)
  }

  /** Each token is the match made at its position. */
  ghost predicate Matched(s: string, toks: seq<Arg>, ps: seq<nat>)
    requires |ps| == |toks|
  {
    forall i :: 0 <= i < |ps| ==> MatchedAt(s, ps[i], toks[i])
  }

  /** Consecutive matches do not overlap, and no match starts between them. */
  ghost predicate Gaps(s: string, toks: seq<Arg>, ps: seq<nat>)
    requires |ps| == |toks|
  {
    forall i :: 0 < i < |ps| ==> EndOf(toks, ps, i - 1) <= ps[i] && NoMatchIn(s, EndOf(toks, ps, i - 1), ps[i])
  }

  /** No match starts between `from` and the first match, nor after the last one. */
  ghost predicate Edges(s: string, toks: seq<Arg>, ps: seq<nat>, from: nat)
    requires |ps| == |toks|
  {
    && (|ps| > 0 ==> from <= ps[0] && NoMatchIn(s, from, ps[0]))
    && NoMatchIn(s, if |ps| == 0 then from else EndOf(toks, ps, |ps| - 1), |s|)
  }

  /** `toks` are the matches of a left-to-right scan of `s` from position `from`, found at
      the positions `ps`. */
  ghost predicate PlacedFrom(s: string, toks: seq<Arg>, ps: seq<nat>, from: nat) {
    |ps| == |toks| && Matched(s, toks, ps) && Gaps(s, toks, ps) && Edges(s, toks, ps, from)
  }

  /** `toks` are exactly the matches of a scan of the whole of `s`, found at the positions `ps`:
      they occur in order without overlapping, and no match starts outside the captured spans. */
  ghost predicate Placed(s: string, toks: seq<Arg>, ps: seq<nat>) {
    PlacedFrom(s, toks, ps, 0)
  }

  function Shift(ps: seq<nat>, k: nat): (r: seq<nat>)
    ensures |r| == |ps| && forall i :: 0 <= i < |ps| ==> r[i] == ps[i] + k
  {
    seq(|ps|, i requires 0 <= i < |ps| => ps[i] + k)
  }

  /** A match-free stretch of a suffix is match-free in the whole string, shifted. */
  lemma NoMatchShift(s: string, k: nat, lo: nat, hi: nat)
    requires k <= |s| && NoMatchIn(s[k..], lo, hi)
    ensures NoMatchIn(s, lo + k, hi + k)
  {
    forall p | lo + k <= p < hi + k && p <= |s|
      ensures MatchAt(s[p..]).None?
    {
      assert s[k..][p - k..] == s[p..];
    }
  }

  /** A match in the suffix `s[k..]` is a match in `s`, `k` positions further on. */
  lemma MatchedAtShift(s: string, k: nat, p: nat, tok: Arg)
    requires k <= |s| && MatchedAt(s[k..], p, tok)
    ensures MatchedAt(s, p + k, tok)
  {
    assert s[k..][p..] == s[p + k..];
    assert s[k..][p..p + |Token(tok)|] == s[p + k..p + k + |Token(tok)|];
  }

  lemma MatchedShift(s: string, k: nat, toks: seq<Arg>, ps: seq<nat>)
    requires k <= |s| && |ps| == |toks| && Matched(s[k..], toks, ps)
    ensures Matched(s, toks, Shift(ps, k))
  {
    var qs := Shift(ps, k);
    forall i | 0 <= i < |ps|
      ensures MatchedAt(s, qs[i], toks[i])
    {
      var t, p := toks[i], ps[i];
      assert MatchedAt(s[k..], p, t);
      MatchedAtShift(s, k, p, t);
      assert qs[i] == p + k;
    }
  }

  lemma GapsShift(s: string, k: nat, toks: seq<Arg>, ps: seq<nat>)
    requires k <= |s| && |ps| == |toks| && Gaps(s[k..], toks, ps)
    ensures Gaps(s, toks, Shift(ps, k))
  {
    var qs := Shift(ps, k);
    forall i | 0 < i < |ps|
      ensures EndOf(toks, qs, i - 1) <= qs[i] && NoMatchIn(s, EndOf(toks, qs, i - 1), qs[i])
    {
      NoMatchShift(s, k, EndOf(toks, ps, i - 1), ps[i]);
    }
  }

  lemma EdgesShift(s: string, k: nat, toks: seq<Arg>, ps: seq<nat>)
    requires k <= |s| && |ps| == |toks| && Edges(s[k..], toks, ps, 0)
    ensures Edges(s, toks, Shift(ps, k), k)
  {
    var qs := Shift(ps, k);
    if |ps| > 0 {
      NoMatchShift(s, k, 0, ps[0]);
      NoMatchShift(s, k, EndOf(toks, ps, |ps| - 1), |s| - k);
      assert EndOf(toks, ps, |ps| - 1) + k == EndOf(toks, qs, |ps| - 1);
    } else {
      NoMatchShift(s, k, 0, |s| - k);
    }
  }

  /** A scan of the suffix `s[k..]` is a scan of `s` from position `k`. */
  lemma PlacedShift(s: string, k: nat, toks: seq<Arg>, ps: seq<nat>)
    requires k <= |s| && Placed(s[k..], toks, ps)
    ensures PlacedFrom(s, toks, Shift(ps, k), k)
  {
    MatchedShift(s, k, toks, ps);
    GapsShift(s, k, toks, ps);
    EdgesShift(s, k, toks, ps);
  }

  /** The start positions of the matches `Scan` finds. */
  function Starts(s: string): (ps: seq<nat>)
    ensures Placed(s, Scan(s), ps)
    decreases |s|
  {
    if |s| == 0 then []
    else
      match MatchAt(s)
      case Some(m) =>
        var rest := Starts(s[m.end..]);
        PlacedShift(s, m.end, Scan(s[m.end..]), rest);
        PlacedCons(s, m, Scan(s[m.end..]), Shift(rest, m.end));
        [0] + Shift(rest, m.end)
      case None =>
        var rest := Starts(s[1..]);
        PlacedShift(s, 1, Scan(s[1..]), rest);
        PlacedSkip(s, Scan(s[1..]), Shift(rest, 1));
        Shift(rest, 1)
  }

  /** A match at the start of `s`, followed by a scan from where it ends, is a scan of `s`. */
  lemma PlacedCons(s: string, m: Match, toks: seq<Arg>, ps: seq<nat>)
    requires MatchAt(s) == Some(m) && PlacedFrom(s, toks, ps, m.end)
    ensures Placed(s, [m.arg] + toks, [0] + ps)
  {
    MatchedHead(s, m);
    MatchedCons(s, m.arg, toks, ps);
    GapsCons(s, m.arg, toks, ps);
    EdgesCons(s, m.arg, toks, ps);
  }

  /** The match `MatchAt` makes is placed at position 0. */
  lemma MatchedHead(s: string, m: Match)
    requires MatchAt(s) == Some(m)
    ensures |Token(m.arg)| == m.end && MatchedAt(s, 0, m.arg)
  {
    assert s[0..] == s;
  }

  lemma MatchedCons(s: string, a: Arg, toks: seq<Arg>, ps: seq<nat>)
    requires MatchedAt(s, 0, a) && |ps| == |toks| && Matched(s, toks, ps)
    ensures Matched(s, [a] + toks, [0] + ps)
  {
    var toks', ps' := [a] + toks, [0] + ps;
    forall i | 0 <= i < |ps'|
      ensures MatchedAt(s, ps'[i], toks'[i])
    {
      if i > 0 {
        var t, p := toks[i - 1], ps[i - 1];
        assert MatchedAt(s, p, t);
        assert toks'[i] == t && ps'[i] == p;
      }
    }
  }

  lemma GapsCons(s: string, a: Arg, toks: seq<Arg>, ps: seq<nat>)
    requires |ps| == |toks| && Gaps(s, toks, ps)
    requires |ps| > 0 ==> |Token(a)| <= ps[0] && NoMatchIn(s, |Token(a)|, ps[0])
    ensures Gaps(s, [a] + toks, [0] + ps)
  {
    var toks', ps' := [a] + toks, [0] + ps;
    forall i | 0 < i < |ps'|
      ensures EndOf(toks', ps', i - 1) <= ps'[i] && NoMatchIn(s, EndOf(toks', ps', i - 1), ps'[i])
    {
      if i > 1 {
        assert toks'[i - 1] == toks[i - 2] && ps'[i - 1] == ps[i - 2] && ps'[i] == ps[i - 1];
      }
    }
  }

  lemma EdgesCons(s: string, a: Arg, toks: seq<Arg>, ps: seq<nat>)
    requires |ps| == |toks| && Edges(s, toks, ps, |Token(a)|)
    ensures Edges(s, [a] + toks, [0] + ps, 0)
  {
    var toks', ps' := [a] + toks, [0] + ps;
    assert NoMatchIn(s, 0, 0);
    var last := if |ps| == 0 then |Token(a)| else EndOf(toks, ps, |ps| - 1);
    assert NoMatchIn(s, last, |s|);
    assert EndOf(toks', ps', |ps'| - 1) == last;
  }

  /** A start position where nothing matches, followed by a scan from the next position, is a scan of `s`. */
  lemma PlacedSkip(s: string, toks: seq<Arg>, ps: seq<nat>)
    requires |s| > 0 && MatchAt(s).None? && PlacedFrom(s, toks, ps, 1)
    ensures Placed(s, toks, ps)
  {
    assert s[0..] == s;
  }

  /** The scan finds nothing exactly when the pattern matches at no position of `s`. */
  lemma ScanEmpty(s: string)
    ensures Scan(s) == [] <==> NoMatchIn(s, 0, |s| + 1)
  {
    var toks, ps := Scan(s), Starts(s);
    if toks == [] {
      assert MatchAt(s[|s|..]).None?;
    } else {
      assert MatchedAt(s, ps[0], toks[0]);
    }
  }
}
