/** The argument string of a cron job: parsed by `addArguments`, written back by `getArguments`. */
module Arguments {
  import opened Wrappers
  import opened Text
  import opened ArgGrammar
  import opened ArgScanner
  import opened ArgMap

  /** The map `addArguments` stores for the subject `s`: the tokens the scan finds, assigned in order. */
  function Parse(s: string): (r: seq<Arg>)
    ensures UniqueNames(r)
    ensures forall i :: 0 <= i < |r| ==> WellFormed(r[i])
  {
    var toks := Scan(s);
    var r := FromTokens(toks);
    assert forall i :: 0 <= i < |r| ==> r[i] in toks;
    r
  }

  /** The `key:value` texts of the entries, in map order. */
  function Tokens(m: seq<Arg>): seq<string> {
    seq(|m|, i requires 0 <= i < |m| => Token(m[i]))
  }

  /** `getArguments`: the `key:value` tokens of the map, separated by single spaces. */
  function Serialize(m: seq<Arg>): (r: string)
    ensures r == "" <==> |m| == 0
  {
    var r := Join(" ", Tokens(m));
    assert |m| > 0 ==> Tokens(m)[0][|m[0].name|] == ':';
    r
  }

  /** The serialised text of two or more entries: the first token, a space, the rest. */
  lemma SerializeCons(m: seq<Arg>)
    requires |m| > 1
    ensures Serialize(m) == Token(m[0]) + (" " + Serialize(m[1..]))
  {
    assert Tokens(m)[1..] == Tokens(m[1..]);
  }

  /** Cutting the serialised text at its spaces gives back one `key:value` token per entry. */
  lemma SerializeSplit(m: seq<Arg>)
    requires |m| > 0
    requires forall i :: 0 <= i < |m| ==> WellFormed(m[i])
    ensures Split(Serialize(m), ' ') == Tokens(m)
  {
    forall i | 0 <= i < |m|
      ensures ' ' !in Tokens(m)[i]
    {
      var t := Token(m[i]);
      assert forall j :: 0 <= j < |t| ==> t[j] == ':' || InClass(t[j], ValueChar);
    }
    SplitJoin(Tokens(m), ' ');
  }

  /** Scanning the serialised text of well-formed entries finds exactly those entries. */
  lemma {:induction false} ScanSerialize(m: seq<Arg>)
    requires forall i :: 0 <= i < |m| ==> WellFormed(m[i])
    ensures Scan(Serialize(m)) == m
  {
    if |m| == 1 {
      assert Serialize(m) == Token(m[0]) + "";
      ScanToken(m[0], "");
    } else if |m| > 1 {
      ScanSerializeCons(m);
      ScanSerialize(m[1..]);
      assert m == [m[0]] + m[1..];
    }
  }

  /** The scan of two or more serialised entries finds the first, then scans the rest. */
  lemma ScanSerializeCons(m: seq<Arg>)
    requires |m| > 1
    requires WellFormed(m[0])
    ensures Scan(Serialize(m)) == [m[0]] + Scan(Serialize(m[1..]))
  {
    var rest := Serialize(m[1..]);
    SerializeCons(m);
    assert (" " + rest)[0] == ' ';
    ScanToken(m[0], " " + rest);
    assert " " + rest == [' '] + rest;
    ScanSkip(' ', rest);
  }

  /** Round trip: parsing the serialised text of a map the grammar can express rebuilds the
      same map, with the same key order. */
  lemma ParseSerialize(m: seq<Arg>)
    requires UniqueNames(m)
    requires forall i :: 0 <= i < |m| ==> WellFormed(m[i])
    ensures Parse(Serialize(m)) == m
  {
    ScanSerialize(m);
    FromTokensUnique(m);
  }

  /** Every parsed map is such a map, so serialising it and parsing again changes nothing. */
  lemma SerializeParse(s: string)
    ensures Parse(Serialize(Parse(s))) == Parse(s)
  {
    ParseSerialize(Parse(s));
  }

  /** A parsed key holds the value of the last token for it. */
  lemma ParseLastWrite(s: string, k: string, v: string)
    ensures Lookup(Parse(s), k) == Some(v) <==> LastWrite(Scan(s), k, v)
  {
    FromTokensLastWrite(Scan(s), k, v);
  }

  /** Parsed keys appear in the order of their first token. */
  lemma ParseOrder(s: string)
    ensures FirstOrdered(Parse(s), Names(Scan(s)))
  {
    FromTokensOrder(Scan(s));
  }

  /** Text with no colon followed by a value character parses to the empty map. */
  lemma ParseNoMatch(s: string)
    requires forall i :: 0 <= i < |s| - 1 && s[i] == ':' ==> !InClass(s[i + 1], ValueChar)
    ensures Parse(s) == []
  {
    ScanNoMatch(s);
  }

  /** The map is empty exactly when the pattern matches at no position of the text. */
  lemma ParseEmpty(s: string)
    ensures Parse(s) == [] <==> NoMatchIn(s, 0, |s| + 1)
  {
    ScanEmpty(s);
    var toks := Scan(s);
    var r := FromTokens(toks);
    assert Parse(s) == r;
    if toks != [] {
      assert Names(toks)[0] == toks[0].name;
      assert toks[0].name in Names(r);
      assert |Names(r)| == |r|;
    }
  }

  /** Three tokens separated by spaces, one of them with a hyphen in its value. */
  lemma ExampleThreeTokens()
    ensures Parse("foo:bar baz:1 qux:a-b") == [Arg("foo", "bar"), Arg("baz", "1"), Arg("qux", "a-b")]
    ensures Serialize(Parse("foo:bar baz:1 qux:a-b")) == "foo:bar baz:1 qux:a-b"
  {
    var m := [Arg("foo", "bar"), Arg("baz", "1"), Arg("qux", "a-b")];
    SerializeThreeTokens(m);
    assert WellFormed(m[0]) && WellFormed(m[1]) && WellFormed(m[2]);
    ParseSerialize(m);
  }

  /** The map is a parameter equal to the literal rather than the literal itself: a literal
      argument lets the verifier unfold `Serialize` on constants, which makes the caller's
      proof much more expensive. */
  lemma SerializeThreeTokens(m: seq<Arg>)
    requires m == [Arg("foo", "bar"), Arg("baz", "1"), Arg("qux", "a-b")]
    ensures Serialize(m) == "foo:bar baz:1 qux:a-b"
  {
    assert Token(m[0]) == "foo:bar" && Token(m[1]) == "baz:1" && Token(m[2]) == "qux:a-b";
    var ts := ["foo:bar", "baz:1", "qux:a-b"];
    assert Tokens(m) == ts;
    assert ts[1..][1..] == ["qux:a-b"];
    assert Join(" ", ts[1..]) == "baz:1 qux:a-b";
  }

  /** A repeated key keeps its first position and takes its last value. */
  lemma ExampleDuplicateKey()
    ensures Parse("a:1 b:2 a:3") == [Arg("a", "3"), Arg("b", "2")]
  {
    ScanDuplicateKey();
    FoldDuplicateKey();
  }

  lemma ScanDuplicateKey()
    ensures Scan("a:1 b:2 a:3") == [Arg("a", "1"), Arg("b", "2"), Arg("a", "3")]
  {
    var toks := [Arg("a", "1"), Arg("b", "2"), Arg("a", "3")];
    assert Token(toks[0]) == "a:1" && Token(toks[1]) == "b:2" && Token(toks[2]) == "a:3";
    var ts := ["a:1", "b:2", "a:3"];
    assert Tokens(toks) == ts;
    assert ts[1..][1..] == ["a:3"];
    assert Join(" ", ts[1..]) == "b:2 a:3";
    assert Serialize(toks) == "a:1 b:2 a:3";
    assert WellFormed(toks[0]) && WellFormed(toks[1]) && WellFormed(toks[2]);
    ScanSerialize(toks);
  }

  lemma FoldDuplicateKey()
    ensures FromTokens([Arg("a", "1"), Arg("b", "2"), Arg("a", "3")]) == [Arg("a", "3"), Arg("b", "2")]
  {
    var toks := [Arg("a", "1"), Arg("b", "2"), Arg("a", "3")];
    var two := [Arg("a", "1"), Arg("b", "2")];
    assert toks[..2] == two;
    assert UniqueNames(two);
    FromTokensUnique(two);
    assert Names(two) == ["a", "b"];
    assert FirstIndex(Names(two), "a") == 0;
    assert FromTokens(toks) == Put(two, "a", "3");
  }

  /** Matches do not overlap: after `a:b` the scan resumes at `:c`, which cannot start a match. */
  lemma ExampleChained()
    ensures Parse("a:b:c") == [Arg("a", "b")]
  {
    var a := Arg("a", "b");
    ScanChained();
    FromTokensUnique([a]);
  }

  lemma ScanChained()
    ensures Scan("a:b:c") == [Arg("a", "b")]
  {
    var a := Arg("a", "b");
    assert IsName(a.name) && IsValue(a.value);
    assert Token(a) + ":c" == "a:b:c";
    ScanToken(a, ":c");
    assert [':'] + "c" == ":c";
    ScanSkip(':', "c");
    ScanNoMatch("c");
  }

  /** A trailing `key:` has no value, so it matches nothing. */
  lemma ExampleNoValue()
    ensures Parse("key:") == []
  {
    ScanNoMatch("key:");
  }

  /** Free text and a trailing `key:` match nothing. */
  lemma ExampleFreeText()
    ensures Parse("not a valid token !!! key:") == []
  {
    var s := "not a valid token !!! key:";
    assert forall i :: 0 <= i < |s| - 1 ==> s[i] != ':';
    ScanNoMatch(s);
  }
}
