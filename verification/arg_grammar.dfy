/** The token grammar of cron argument strings: `name:value` with `name` in `\w+` and
    `value` in `[\w+\-]+`, where `\w` is the ASCII class `[A-Za-z0-9_]`. */
module ArgGrammar {

  /** The two character classes the argument pattern uses. */
  datatype CharClass = Word | ValueChar

  /** `\w`: ASCII letters, digits and underscore. */
  predicate IsWordChar(c: char) {
    ('A' <= c <= 'Z') || ('a' <= c <= 'z') || ('0' <= c <= '9') || c == '_'
  }

  predicate InClass(c: char, cls: CharClass) {
    match cls
    case Word => IsWordChar(c)
    case ValueChar => IsWordChar(c) || c == '+' || c == '-'
  }

  predicate AllIn(s: string, cls: CharClass) {
    forall i :: 0 <= i < |s| ==> InClass(s[i], cls)
  }

  /** A string the pattern's `(?P<argument>\w+)` group can capture. */
  predicate IsName(s: string) {
    |s| > 0 && AllIn(s, Word)
  }

  /** A string the pattern's `(?P<value>[\w+\-]+)` group can capture. */
  predicate IsValue(s: string) {
    |s| > 0 && AllIn(s, ValueChar)
  }

  /** What a greedy `cls*` consumes at the start of `s`: its longest prefix inside `cls`. */
  function Run(s: string, cls: CharClass): (r: string)
    ensures r <= s
    ensures AllIn(r, cls)
    ensures |r| < |s| ==> !InClass(s[|r|], cls)
  {
    if |s| == 0 || !InClass(s[0], cls) then ""
    else [s[0]] + Run(s[1..], cls)
  }

  /** The greedy run covers every prefix that lies inside `cls`. */
  lemma RunCovers(s: string, cls: CharClass, t: string)
    requires t <= s && AllIn(t, cls)
    ensures |Run(s, cls)| >= |t|
  {
  }

  /** The greedy run is the only prefix that lies inside `cls` and stops at the first character outside it. */
  lemma RunUnique(s: string, cls: CharClass, t: string)
    requires t <= s && AllIn(t, cls)
    requires |t| < |s| ==> !InClass(s[|t|], cls)
    ensures Run(s, cls) == t
  {
    var r := Run(s, cls);
    assert |r| == |t|;
    assert r == s[..|r|] && t == s[..|t|];
  }

  /** The greedy run over `t + u` is `t` when `t` lies inside `cls` and `u` cannot extend it. */
  lemma RunConcat(t: string, u: string, cls: CharClass)
    requires AllIn(t, cls)
    requires |u| > 0 ==> !InClass(u[0], cls)
    ensures Run(t + u, cls) == t
  {
    assert t <= t + u;
    assert |u| > 0 ==> (t + u)[|t|] == u[0];
    RunUnique(t + u, cls, t);
  }

  /** One argument: a key of the argument map with its value. */
  datatype Arg = Arg(name: string, value: string)

  /** An argument that the grammar can express. */
  predicate WellFormed(a: Arg) {
    IsName(a.name) && IsValue(a.value)
  }

  /** The `key:value` text of one argument. */
  function Token(a: Arg): string {
    a.name + ":" + a.value
  }
}
