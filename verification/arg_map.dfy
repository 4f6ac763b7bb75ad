/** The argument map: a PHP array with string keys, which remembers the order in which keys
    were first inserted. Assigning to a key already present replaces its value in place. */
module ArgMap {
  import opened Wrappers
  import opened ArgGrammar

  /** The keys of `m`, in map order. */
  function Names(m: seq<Arg>): seq<string> {
    seq(|m|, i requires 0 <= i < |m| => m[i].name)
  }

  /** No key occurs twice: what every PHP array satisfies. */
  predicate UniqueNames(m: seq<Arg>) {
    forall i, j :: 0 <= i < j < |m| ==> m[i].name != m[j].name
  }

  /** The position of the first occurrence of `x` in `xs`. */
  function FirstIndex(xs: seq<string>, x: string): (r: nat)
    requires x in xs
    ensures r < |xs| && xs[r] == x && x !in xs[..r]
  {
    if xs[0] == x then 0
    else
      var r := 1 + FirstIndex(xs[1..], x);
      assert xs[..r] == [xs[0]] + xs[1..][..r - 1];
      r
  }

  /** Appending after the first occurrence does not move it. */
  lemma FirstIndexAppend(xs: seq<string>, y: string, x: string)
    requires x in xs
    ensures x in xs + [y] && FirstIndex(xs + [y], x) == FirstIndex(xs, x)
  {
    var i := FirstIndex(xs, x);
    assert (xs + [y])[i] == x;
    assert (xs + [y])[..i] == xs[..i];
  }

  /** `isset($m[k]) ? $m[k] : null`. */
  function Lookup(m: seq<Arg>, k: string): (r: Option<string>)
    ensures r.None? <==> k !in Names(m)
    ensures r.Some? ==> Arg(k, r.value) in m
  {
    if |m| == 0 then None
    else if m[0].name == k then
      assert Names(m)[0] == k;
      Some(m[0].value)
    else
      assert Names(m) == [m[0].name] + Names(m[1..]);
      Lookup(m[1..], k)
  }

  /** With unique keys, a lookup finds exactly the entries of the map. */
  lemma LookupEntry(m: seq<Arg>, k: string, v: string)
    requires UniqueNames(m)
    ensures Lookup(m, k) == Some(v) <==> Arg(k, v) in m
  {
    if Arg(k, v) in m {
      var i :| 0 <= i < |m| && m[i] == Arg(k, v);
      assert Names(m)[i] == k;
      var w := Lookup(m, k).value;
      var j :| 0 <= j < |m| && m[j] == Arg(k, w);
      assert i == j;
    }
  }

  /** `$m[k] = v`: a key already present keeps its position and takes the new value, a new
      key is appended at the end. */
  function Put(m: seq<Arg>, k: string, v: string): (r: seq<Arg>)
    ensures k in Names(m) ==> r == m[FirstIndex(Names(m), k) := Arg(k, v)]
    ensures k !in Names(m) ==> r == m + [Arg(k, v)]
  {
    if |m| == 0 then [Arg(k, v)]
    else if m[0].name == k then
      assert Names(m)[0] == k;
      [Arg(k, v)] + m[1..]
    else
      assert Names(m) == [m[0].name] + Names(m[1..]);
      [m[0]] + Put(m[1..], k, v)
  }

  /** `Put` keeps the key order, appending a key only when it is new. */
  lemma PutNames(m: seq<Arg>, k: string, v: string)
    ensures Names(Put(m, k, v)) == if k in Names(m) then Names(m) else Names(m) + [k]
  {
    var r := Put(m, k, v);
    if k in Names(m) {
      assert forall j :: 0 <= j < |r| ==> Names(r)[j] == Names(m)[j];
    } else {
      assert forall j :: 0 <= j < |r| ==> Names(r)[j] == (Names(m) + [k])[j];
    }
  }

  /** After `Put` the key holds the new value and every other key keeps its old lookup. */
  lemma PutLookup(m: seq<Arg>, k: string, v: string)
    ensures Lookup(Put(m, k, v), k) == Some(v)
    ensures forall k' :: k' != k ==> Lookup(Put(m, k, v), k') == Lookup(m, k')
  {
    var r := Put(m, k, v);
    if k in Names(m) {
      var i := FirstIndex(Names(m), k);
      assert forall j :: 0 <= j < i ==> r[j].name != k by {
        assert forall j :: 0 <= j < i ==> Names(m)[..i][j] == r[j].name;
      }
      LookupBefore(r, k, i);
      forall k' | k' != k
        ensures Lookup(r, k') == Lookup(m, k')
      {
        LookupReplace(m, i, Arg(k, v), k');
      }
    } else {
      LookupAppend(m, Arg(k, v), k);
      forall k' | k' != k
        ensures Lookup(r, k') == Lookup(m, k')
      {
        LookupAppend(m, Arg(k, v), k');
      }
    }
  }

  /** `Put` introduces no entry other than the one assigned, and keeps the keys unique. */
  lemma PutEntries(m: seq<Arg>, k: string, v: string)
    ensures forall a :: a in Put(m, k, v) ==> a in m || a == Arg(k, v)
    ensures UniqueNames(m) ==> UniqueNames(Put(m, k, v))
  {
    var r := Put(m, k, v);
    if k in Names(m) {
      var i := FirstIndex(Names(m), k);
      assert forall j :: 0 <= j < |r| ==> r[j].name == m[j].name;
    } else if UniqueNames(m) {
      assert forall j :: 0 <= j < |m| ==> Names(m)[j] == m[j].name;
    }
  }

  /** A lookup of a key absent from a prefix is decided by the first entry after it. */
  lemma {:induction false} LookupBefore(m: seq<Arg>, k: string, i: nat)
    requires i < |m| && m[i].name == k
    requires forall j :: 0 <= j < i ==> m[j].name != k
    ensures Lookup(m, k) == Some(m[i].value)
  {
    if i > 0 {
      LookupBefore(m[1..], k, i - 1);
    }
  }

  /** Replacing an entry by one with the same key leaves the lookups of other keys alone. */
  lemma {:induction false} LookupReplace(m: seq<Arg>, i: nat, a: Arg, k': string)
    requires i < |m| && m[i].name == a.name && a.name != k'
    ensures Lookup(m[i := a], k') == Lookup(m, k')
  {
    if i > 0 {
      assert m[i := a][1..] == m[1..][i - 1 := a];
      LookupReplace(m[1..], i - 1, a, k');
    }
  }

  /** Appending an entry only matters for a key the map lacks. */
  lemma {:induction false} LookupAppend(m: seq<Arg>, a: Arg, k: string)
    ensures Lookup(m + [a], k) == if k in Names(m) then Lookup(m, k) else if a.name == k then Some(a.value) else None
  {
    if |m| > 0 {
      assert (m + [a])[1..] == m[1..] + [a];
      assert Names(m) == [m[0].name] + Names(m[1..]);
      LookupAppend(m[1..], a, k);
    } else {
      assert m + [a] == [a];
    }
  }

  /** The array built by assigning the tokens one after another, starting from `[]`. */
  function FromTokens(toks: seq<Arg>): (r: seq<Arg>)
    ensures UniqueNames(r)
    ensures forall a :: a in r ==> a in toks
    ensures forall k :: k in Names(r) <==> k in Names(toks)
  {
    if |toks| == 0 then []
    else
      var prefix := toks[..|toks| - 1];
      var last := toks[|toks| - 1];
      var before := FromTokens(prefix);
      PutNames(before, last.name, last.value);
      PutEntries(before, last.name, last.value);
      assert Names(toks) == Names(prefix) + [last.name];
      var r := Put(before, last.name, last.value);
      assert forall i :: 0 <= i < |r| ==> Names(r)[i] == r[i].name;
      r
  }

  /** Entry `Arg(k, v)` is the last assignment to key `k` among `toks`. */
  ghost predicate LastWrite(toks: seq<Arg>, k: string, v: string) {
    exists i :: 0 <= i < |toks| && toks[i] == Arg(k, v) && forall j :: i < j < |toks| ==> toks[j].name != k
  }

  /** The final token decides `LastWrite` for its own key. */
  lemma LastWriteFinal(toks: seq<Arg>, k: string, v: string)
    requires |toks| > 0 && toks[|toks| - 1].name == k
    ensures LastWrite(toks, k, v) <==> v == toks[|toks| - 1].value
  {
    var n := |toks|;
    if LastWrite(toks, k, v) {
      var i :| 0 <= i < n && toks[i] == Arg(k, v) && forall j :: i < j < n ==> toks[j].name != k;
      assert i == n - 1;
    }
    if v == toks[n - 1].value {
      assert toks[n - 1] == Arg(k, v);
    }
  }

  /** A final token for another key does not affect `LastWrite` for `k`. */
  lemma LastWriteOther(toks: seq<Arg>, k: string, v: string)
    requires |toks| > 0 && toks[|toks| - 1].name != k
    ensures LastWrite(toks, k, v) <==> LastWrite(toks[..|toks| - 1], k, v)
  {
    var n := |toks|;
    var prefix := toks[..n - 1];
    if LastWrite(toks, k, v) {
      var i :| 0 <= i < n && toks[i] == Arg(k, v) && forall j :: i < j < n ==> toks[j].name != k;
      assert i < n - 1 && prefix[i] == Arg(k, v);
    }
    if LastWrite(prefix, k, v) {
      var i :| 0 <= i < n - 1 && prefix[i] == Arg(k, v) && forall j :: i < j < n - 1 ==> prefix[j].name != k;
      assert toks[i] == Arg(k, v);
    }
  }

  /** Last write wins: a key of the built array holds the value of its last assignment. */
  lemma {:induction false} FromTokensLastWrite(toks: seq<Arg>, k: string, v: string)
    ensures Lookup(FromTokens(toks), k) == Some(v) <==> LastWrite(toks, k, v)
  {
    if |toks| > 0 {
      var n := |toks|;
      var prefix := toks[..n - 1];
      var last := toks[n - 1];
      PutLookup(FromTokens(prefix), last.name, last.value);
      if k == last.name {
        LastWriteFinal(toks, k, v);
      } else {
        FromTokensLastWrite(prefix, k, v);
        LastWriteOther(toks, k, v);
      }
    }
  }

  /** The keys of `m` all occur in `xs`, and they are listed in the order of their first occurrence there. */
  ghost predicate FirstOrdered(m: seq<Arg>, xs: seq<string>) {
    && (forall i :: 0 <= i < |m| ==> m[i].name in xs)
    && (forall i, j :: 0 <= i < j < |m| ==> FirstIndex(xs, m[i].name) < FirstIndex(xs, m[j].name))
  }

  /** Assigning to a key already present keeps the order. */
  lemma OrderStepOld(m: seq<Arg>, xs: seq<string>, k: string, v: string)
    requires FirstOrdered(m, xs) && k in Names(m)
    ensures FirstOrdered(Put(m, k, v), xs + [k])
  {
    var r := Put(m, k, v);
    assert forall i :: 0 <= i < |r| ==> r[i].name == m[i].name;
    forall i | 0 <= i < |m|
      ensures FirstIndex(xs + [k], r[i].name) == FirstIndex(xs, m[i].name)
    {
      FirstIndexAppend(xs, k, m[i].name);
    }
  }

  /** Appending a key that is new to `xs` keeps the order. */
  lemma OrderStepNew(m: seq<Arg>, xs: seq<string>, k: string, v: string)
    requires FirstOrdered(m, xs) && k !in Names(m) && k !in xs
    ensures FirstOrdered(Put(m, k, v), xs + [k])
  {
    var r := Put(m, k, v);
    assert r == m + [Arg(k, v)];
    forall i | 0 <= i < |m|
      ensures FirstIndex(xs + [k], r[i].name) == FirstIndex(xs, m[i].name) < |xs|
    {
      FirstIndexAppend(xs, k, m[i].name);
    }
    assert FirstIndex(xs + [k], k) == |xs| by {
      assert (xs + [k])[|xs|] == k;
      assert (xs + [k])[..|xs|] == xs;
    }
  }

  /** The built array lists its keys in the order of their first assignment. */
  lemma {:induction false} FromTokensOrder(toks: seq<Arg>)
    ensures FirstOrdered(FromTokens(toks), Names(toks))
  {
    if |toks| > 0 {
      var n := |toks|;
      var prefix := toks[..n - 1];
      var last := toks[n - 1];
      var before := FromTokens(prefix);
      FromTokensOrder(prefix);
      assert Names(toks) == Names(prefix) + [last.name];
      if last.name in Names(before) {
        OrderStepOld(before, Names(prefix), last.name, last.value);
      } else {
        OrderStepNew(before, Names(prefix), last.name, last.value);
      }
    }
  }

  /** Assigning the entries of an array with unique keys, in order, rebuilds that array. */
  lemma {:induction false} FromTokensUnique(m: seq<Arg>)
    requires UniqueNames(m)
    ensures FromTokens(m) == m
  {
    if |m| > 0 {
      var n := |m|;
      var prefix := m[..n - 1];
      var last := m[n - 1];
      assert UniqueNames(prefix);
      FromTokensUnique(prefix);
      LastNameIsNew(m);
      assert prefix + [last] == m;
    }
  }

  /** In an array with unique keys the final key does not occur before it. */
  lemma LastNameIsNew(m: seq<Arg>)
    requires UniqueNames(m) && |m| > 0
    ensures m[|m| - 1].name !in Names(m[..|m| - 1])
  {
    var prefix := m[..|m| - 1];
    forall i | 0 <= i < |prefix|
      ensures Names(prefix)[i] != m[|m| - 1].name
    {
      assert Names(prefix)[i] == m[i].name;
    }
  }
}
