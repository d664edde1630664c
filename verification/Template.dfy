/** Path templates (`replaceTemplate` and `resolvePath` in `openapi-client.cpp`). */
module Template {
  import opened Text

  /** A template: pieces of text, each with the name of the hole behind it, and the text behind the last hole. */
  datatype Template = End(text: string) | Hole(text: string, name: string, rest: Template)

  function Parse(str: string): Template
    decreases |str|
  {
    var begin := IndexOf(str, '{', 0);
    if begin == |str| then End(str)
    else
      var end := IndexOf(str, '}', begin);
      if end == |str| then End(str)
      else Hole(str[..begin], str[begin + 1..end], Parse(str[end + 1..]))
  }

  /** What a hole is filled with, by the number of the call and the name; `None` for an exception. */
  type Callback = (nat, string) -> Option<string>

  function Substituted(t: Template, fill: Callback, n: nat): Option<string> {
    match t
    case End(text) => Some(text)
    case Hole(text, name, rest) =>
      if fill(n, name).None? || Substituted(rest, fill, n + 1).None? then None
      else Some(text + fill(n, name).value + Substituted(rest, fill, n + 1).value)
  }

  function Behind(done: string, t: Template, fill: Callback, n: nat): Option<string> {
    var r := Substituted(t, fill, n);
    if r.None? then None else Some(done + r.value)
  }

  /** What comes out in the end, given the finished part, the rest and the number of calls so far. */
  ghost function Outcome(fill: Callback): (string, string, nat) -> Option<string> {
    (done, rest, n: nat) => Behind(done, Parse(rest), fill, n)
  }

  /** What one round of the loop does with the hole between `b` and `e`. */
  lemma FillHole(done: string, rest: string, b: nat, e: nat, replacement: string, fill: Callback, n: nat)
    requires b == IndexOf(rest, '{', 0) < |rest| && e == IndexOf(rest, '}', b) < |rest| && b < e
    requires fill(n, rest[b + 1..e]) == Some(replacement)
    ensures Behind(done, Parse(rest), fill, n)
         == Behind(done + rest[..b] + replacement, Parse(rest[e + 1..]), fill, n + 1)
  {
    var text, name, t := rest[..b], rest[b + 1..e], Parse(rest[e + 1..]);
    assert Parse(rest) == Hole(text, name, t);
    var r := Substituted(t, fill, n + 1);
    if r.Some? {
      assert done + (text + replacement + r.value) == (done + text + replacement) + r.value;
    }
  }

  lemma NoFilling(done: string, rest: string, b: nat, e: nat, fill: Callback, n: nat)
    requires b == IndexOf(rest, '{', 0) < |rest| && e == IndexOf(rest, '}', b) < |rest| && b < e
    requires fill(n, rest[b + 1..e]) == None
    ensures Outcome(fill)(done, rest, n) == None
  {
  }

  lemma SplitHole(str: string, begin: nat, end: nat, done: string, rest: string, b: nat, e: nat, replacement: string)
    requires str == done + rest && begin == |done| + b && end == |done| + e && b < e < |rest|
    ensures str[..begin] + replacement + str[end + 1..] == (done + rest[..b] + replacement) + rest[e + 1..]
  {
    assert str[..begin] == done + rest[..b] && str[end + 1..] == rest[e + 1..];
  }

  lemma BracesDiffer(s: string, b: nat)
    requires b < |s| && s[b] == '{'
    ensures b < IndexOf(s, '}', b)
  {
  }

  lemma OutcomeAtStart(template: string, fill: Callback)
    ensures Outcome(fill)("", template, 0) == Substituted(Parse(template), fill, 0)
  {
    var r := Substituted(Parse(template), fill, 0);
    assert r.Some? ==> "" + r.value == r.value;
  }

  /**
   * The loop works on the growing string in place. It ends for every callback, and gives what one
   * pass over the template does; what it has inserted it never looks at again.
   */
  method ReplaceTemplate(template: string, fill: Callback) returns (result: Option<string>)
    ensures result == Substituted(Parse(template), fill, 0)
  {
    var str, pos, calls := template, 0, 0;
    ghost var outcome := Outcome(fill);
    ghost var done, rest, goal := "", template, outcome("", template, 0);
    OutcomeAtStart(template, fill);
    while true
      invariant str == done + rest && pos == |done|
      invariant outcome(done, rest, calls) == goal
      decreases |rest|
    {
      var found, begin, end := FindHole(str, pos, done, rest);
      ghost var b := IndexOf(rest, '{', 0);
      ghost var e := IndexOf(rest, '}', b);
      if !found {
        NoMoreHoles(str, done, rest, fill, calls);
        break;
      }
      var replacement := fill(calls, str[begin + 1..end]);
      if replacement.None? {
        NoFilling(done, rest, b, e, fill, calls);
        return None;
      }
      done, rest := Round(str, begin, end, done, rest, b, e, replacement.value, fill, calls);
      pos := begin + |replacement.value|;
      str := str[..begin] + replacement.value + str[end + 1..];
      calls := calls + 1;
    }
    result := Some(str);
  }

  method FindHole(str: string, pos: nat, ghost done: string, ghost rest: string)
    returns (found: bool, begin: nat, end: nat)
    requires str == done + rest && pos == |done|
    ensures var b := IndexOf(rest, '{', 0); var e := IndexOf(rest, '}', b);
      && (found <==> e < |rest|)
      && (found ==> b < e && begin == |done| + b && end == |done| + e && end < |str|)
      && (found ==> str[begin + 1..end] == rest[b + 1..e])
  {
    begin, end := IndexOf(str, '{', pos), |str|;
    ghost var b, e := NextHole(str, done, rest);
    if begin == |str| {
      return false, begin, end;
    }
    end := IndexOf(str, '}', begin);
    found := end < |str|;
  }

  lemma Round(str: string, begin: nat, end: nat, done: string, rest: string, b: nat, e: nat,
              replacement: string, fill: Callback, n: nat)
    returns (done': string, rest': string)
    requires str == done + rest && begin == |done| + b && end == |done| + e
    requires b == IndexOf(rest, '{', 0) < |rest| && e == IndexOf(rest, '}', b) < |rest| && b < e
    requires fill(n, rest[b + 1..e]) == Some(replacement)
    ensures str[..begin] + replacement + str[end + 1..] == done' + rest'
    ensures |done'| == begin + |replacement| && |rest'| < |rest|
    ensures Outcome(fill)(done, rest, n) == Outcome(fill)(done', rest', n + 1)
  {
    done', rest' := done + rest[..b] + replacement, rest[e + 1..];
    FillHole(done, rest, b, e, replacement, fill, n);
    SplitHole(str, begin, end, done, rest, b, e, replacement);
  }

  /** The loop finds the hole where a fresh look at the rest finds it. */
  lemma NextHole(str: string, done: string, rest: string) returns (b: nat, e: nat)
    requires str == done + rest
    ensures b == IndexOf(rest, '{', 0) && e == IndexOf(rest, '}', b) && (b < |rest| ==> b < e)
    ensures |str| == |done| + |rest|
    ensures IndexOf(str, '{', |done|) == |done| + b && IndexOf(str, '}', |done| + b) == |done| + e
    ensures e < |rest| ==> str[|done| + b + 1..|done| + e] == rest[b + 1..e]
  {
    b := IndexOf(rest, '{', 0);
    e := IndexOf(rest, '}', b);
    IndexOfBehind(done, rest, '{', 0);
    IndexOfBehind(done, rest, '}', b);
  }

  lemma NoMoreHoles(str: string, done: string, rest: string, fill: Callback, n: nat)
    requires str == done + rest && var b := IndexOf(rest, '{', 0); IndexOf(rest, '}', b) == |rest|
    ensures Outcome(fill)(done, rest, n) == Some(str)
  {
  }

  // ---- Templates and their texts ----

  function Print(t: Template): string {
    match t
    case End(text) => text
    case Hole(text, name, rest) => text + "{" + name + "}" + Print(rest)
  }

  /** Templates that can be told from their text. */
  ghost predicate IsPlain(t: Template) {
    match t
    case End(text) => forall i, j :: 0 <= i < j < |text| ==> text[i] != '{' || text[j] != '}'
    case Hole(text, name, rest) => '{' !in text && '}' !in name && IsPlain(rest)
  }

  lemma PlainEnd(str: string)
    requires var begin := IndexOf(str, '{', 0); IndexOf(str, '}', begin) == |str|
    ensures IsPlain(End(str))
  {
    var begin := IndexOf(str, '{', 0);
    IndexOfFirst(str, '{', 0);
    IndexOfFirst(str, '}', begin);
    forall i, j | 0 <= i < j < |str| ensures str[i] != '{' || str[j] != '}' {
      assert i < begin ==> str[i] == str[0..begin][i];
      assert begin <= j ==> str[j] == str[begin..|str|][j - begin];
    }
  }

  lemma PlainHole(str: string, begin: nat, end: nat)
    requires begin == IndexOf(str, '{', 0) < |str| && end == IndexOf(str, '}', begin) < |str| && begin < end
    ensures '{' !in str[..begin] && '}' !in str[begin + 1..end]
    ensures str == str[..begin] + "{" + str[begin + 1..end] + "}" + str[end + 1..]
  {
    IndexOfFirst(str, '{', 0);
    IndexOfFirst(str, '}', begin);
    assert str[0..begin] == str[..begin] && str[begin..end][1..] == str[begin + 1..end];
  }

  lemma {:induction false} PrintParse(str: string)
    ensures Print(Parse(str)) == str && IsPlain(Parse(str))
    decreases |str|
  {
    var begin := IndexOf(str, '{', 0);
    var end := IndexOf(str, '}', begin);
    if end == |str| {
      PlainEnd(str);
    } else {
      BracesDiffer(str, begin);
      PlainHole(str, begin, end);
      PrintParse(str[end + 1..]);
    }
  }

  lemma ParsePlainEnd(text: string)
    requires IsPlain(End(text))
    ensures Parse(text) == End(text)
  {
    var begin := IndexOf(text, '{', 0);
    if begin < |text| {
      IndexOfUnique(text, '}', begin, |text|);
    }
  }

  lemma HoleFound(text: string, name: string, rest: string)
    requires '{' !in text && '}' !in name
    ensures var str := text + "{" + name + "}" + rest; var begin, end := |text|, |text| + 1 + |name|;
      && IndexOf(str, '{', 0) == begin && IndexOf(str, '}', begin) == end
      && str[..begin] == text && str[begin + 1..end] == name && str[end + 1..] == rest
  {
    var str := text + "{" + name + "}" + rest;
    var begin, end := |text|, |text| + 1 + |name|;
    IndexOfUnique(str, '{', 0, begin);
    forall k | begin <= k < end ensures str[k] != '}' {
      assert k > begin ==> str[k] == name[k - begin - 1];
    }
    IndexOfUnique(str, '}', begin, end);
  }

  lemma ParseHole(text: string, name: string, rest: string)
    requires '{' !in text && '}' !in name
    ensures Parse(text + "{" + name + "}" + rest) == Hole(text, name, Parse(rest))
  {
    HoleFound(text, name, rest);
  }

  /** So templates and their texts correspond one to one. */
  lemma {:induction false} ParsePrint(t: Template)
    requires IsPlain(t)
    ensures Parse(Print(t)) == t
  {
    match t
    case End(text) => ParsePlainEnd(text);
    case Hole(text, name, rest) =>
      ParseHole(text, name, Print(rest));
      ParsePrint(rest);
  }

  /** Filling every hole with its own text in braces gives the template back, though braces are inserted. */
  lemma {:induction false} Identity(t: Template, fill: Callback, n: nat)
    requires forall k, name :: fill(k, name) == Some("{" + name + "}")
    ensures Substituted(t, fill, n) == Some(Print(t))
  {
    if t.Hole? {
      Identity(t.rest, fill, n + 1);
      assert fill(n, t.name) == Some("{" + t.name + "}");
      assert t.text + ("{" + t.name + "}") + Print(t.rest) == Print(t);
    }
  }

  function Names(t: Template): seq<string> {
    if t.End? then [] else [t.name] + Names(t.rest)
  }

  /** The callback of `resolvePath`; it throws when the path has no such parameter. */
  function Lookup(values: map<string, string>): Callback {
    (n, name) => if name in values then Some(values[name]) else None
  }

  /** A path resolves exactly when all its names are parameters, whatever their values contain. */
  lemma {:induction false} ResolvesExactly(t: Template, values: map<string, string>, n: nat)
    ensures Substituted(t, Lookup(values), n).Some? <==> forall name <- Names(t) :: name in values
  {
    if t.Hole? {
      ResolvesExactly(t.rest, values, n + 1);
    }
  }

  /** The texts around the holes. */
  function Texts(t: Template): (r: seq<string>)
    ensures |r| == |Names(t)| + 1
  {
    if t.End? then [t.text] else [t.text] + Texts(t.rest)
  }

  function Interleaved(texts: seq<string>, values: seq<string>): string
    requires |texts| == |values| + 1
  {
    if values == [] then texts[0] else texts[0] + values[0] + Interleaved(texts[1..], values[1..])
  }

  /** What the callback gives for the names in turn. */
  ghost predicate Answers(fill: Callback, n: nat, names: seq<string>, values: seq<string>) {
    |values| == |names| && forall k :: 0 <= k < |names| ==> fill(n + k, names[k]) == Some(values[k])
  }

  ghost predicate Fills(t: Template, fill: Callback, n: nat, values: seq<string>, r: string) {
    Answers(fill, n, Names(t), values) && r == Interleaved(Texts(t), values)
  }

  lemma FirstAnswer(t: Template, fill: Callback, n: nat, values: seq<string>)
    requires t.Hole? && values != []
    ensures Answers(fill, n, Names(t), values)
       <==> fill(n, t.name) == Some(values[0]) && Answers(fill, n + 1, Names(t.rest), values[1..])
  {
    if Answers(fill, n, Names(t), values) {
      assert fill(n + 0, Names(t)[0]) == Some(values[0]);
      forall k | 0 <= k < |Names(t.rest)| ensures fill(n + 1 + k, Names(t.rest)[k]) == Some(values[1..][k]) {
        assert fill(n + (k + 1), Names(t)[k + 1]) == Some(values[k + 1]);
      }
    }
    if fill(n, t.name) == Some(values[0]) && Answers(fill, n + 1, Names(t.rest), values[1..]) {
      forall k | 0 <= k < |Names(t)| ensures fill(n + k, Names(t)[k]) == Some(values[k]) {
        if k > 0 {
          assert fill(n + 1 + (k - 1), Names(t.rest)[k - 1]) == Some(values[1..][k - 1]);
        }
      }
    }
  }

  /** What comes out are the texts of the template with what the callback gives for the names between them. */
  lemma {:induction false} SubstitutedExactly(t: Template, fill: Callback, n: nat, r: string)
    ensures Substituted(t, fill, n) == Some(r) <==> exists values :: Fills(t, fill, n, values, r)
  {
    match t
    case End(text) => assert Fills(t, fill, n, [], text);
    case Hole(text, name, rest) =>
      if Substituted(t, fill, n) == Some(r) {
        var value, deeper := fill(n, name).value, Substituted(rest, fill, n + 1).value;
        SubstitutedExactly(rest, fill, n + 1, deeper);
        var values :| Fills(rest, fill, n + 1, values, deeper);
        var all := [value] + values;
        assert all[1..] == values && Texts(t)[1..] == Texts(rest);
        FirstAnswer(t, fill, n, all);
        assert Fills(t, fill, n, all, r);
      }
      if exists values :: Fills(t, fill, n, values, r) {
        var values :| Fills(t, fill, n, values, r);
        FirstAnswer(t, fill, n, values);
        assert Texts(t)[1..] == Texts(rest);
        var deeper := Interleaved(Texts(rest), values[1..]);
        assert Fills(rest, fill, n + 1, values[1..], deeper);
        SubstitutedExactly(rest, fill, n + 1, deeper);
      }
  }
}
