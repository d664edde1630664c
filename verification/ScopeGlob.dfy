/**
 * Scopes of HTTP settings (`convertToRegex` in `http-settings.cpp`): the translation of a scope to
 * a regular expression, and what that expression, read as ECMAScript, matches.
 */
module ScopeGlob {
  import opened Text
  import opened Percent

  // ---- The translation ----

  predicate IsEscaped(c: char) {
    c == '.' || c == '\\' || c == '^' || c == '$' || c == '|' || c == '(' || c == ')' || c == '[' || c == ']' ||
    c == '{' || c == '}' || c == '?' || c == '+' || c == '-' || c == '!'
  }

  function Piece(c: char): string {
    if c == '*' then ".*" else if IsEscaped(c) then ['\\', c] else [c]
  }

  function Pieces(scope: string): string {
    if scope == "" then "" else Piece(scope[0]) + Pieces(scope[1..])
  }

  function Pattern(scope: string): string {
    "^" + (Pieces(scope) + ".*$")
  }

  lemma PiecesFrom(scope: string, i: nat, before: string)
    requires i < |scope|
    ensures before + Pieces(scope[i..]) == before + Piece(scope[i]) + Pieces(scope[i + 1..])
  {
    assert scope[i..][1..] == scope[i + 1..];
  }

  method ConvertToRegex(scope: string) returns (regexPattern: string)
    ensures regexPattern == Pattern(scope)
  {
    regexPattern := "^";
    for i := 0 to |scope|
      invariant regexPattern + Pieces(scope[i..]) == "^" + Pieces(scope)
    {
      PiecesFrom(scope, i, regexPattern);
      regexPattern := AppendPiece(regexPattern, scope[i]);
    }
    assert scope[|scope|..] == "" && regexPattern == "^" + Pieces(scope);
    regexPattern := regexPattern + ".*$";
    assert regexPattern == "^" + (Pieces(scope) + ".*$");
  }

  method AppendPiece(before: string, c: char) returns (regexPattern: string)
    ensures regexPattern == before + Piece(c)
  {
    regexPattern := before;
    if c == '*' {
      regexPattern := regexPattern + ".*";
    } else if c == '.' {
      regexPattern := regexPattern + "\\.";
    } else if c == '\\' {
      regexPattern := regexPattern + "\\\\";
    } else if IsEscaped(c) {
      regexPattern := regexPattern + ['\\'];
      regexPattern := regexPattern + [c];
    } else {
      regexPattern := regexPattern + [c];
    }
  }

  // ---- Reading a pattern ----

  datatype Atom = Start | End | Any | Literal(c: char)

  datatype Item = Item(atom: Atom, star: bool)

  /** Characters with a meaning of their own that the patterns here never use. */
  predicate IsSpecial(c: char) {
    c == '*' || c == '+' || c == '?' || c == '(' || c == ')' || c == '[' || c == ']' || c == '{' || c == '}' || c == '|'
  }

  /**
   * The part of the ECMAScript grammar the translation can reach; `None` for anything else. An
   * escaped letter or digit has a meaning of its own, any other escaped character stands for itself.
   */
  function Parse(t: string): Option<seq<Item>> {
    if t == "" then Some([])
    else if t[0] == '^' then Prepend(Item(Start, false), Parse(t[1..]))
    else if t[0] == '$' then Prepend(Item(End, false), Parse(t[1..]))
    else if t[0] == '\\' then
      if |t| == 1 || IsAlnum(t[1]) then None
      else if |t| > 2 && t[2] == '*' then Prepend(Item(Literal(t[1]), true), Parse(t[3..]))
      else Prepend(Item(Literal(t[1]), false), Parse(t[2..]))
    else if IsSpecial(t[0]) then None
    else
      var atom := if t[0] == '.' then Any else Literal(t[0]);
      if |t| > 1 && t[1] == '*' then Prepend(Item(atom, true), Parse(t[2..]))
      else Prepend(Item(atom, false), Parse(t[1..]))
  }

  function Prepend(item: Item, items: Option<seq<Item>>): Option<seq<Item>> {
    if items.None? then None else Some([item] + items.value)
  }

  predicate IsLineTerminator(c: char) {
    c == '\n' || c == '\r'
  }

  predicate Accepts(atom: Atom, c: char) {
    match atom
    case Any => !IsLineTerminator(c)
    case Literal(d) => c == d
    case _ => false
  }

  /** The items match all of `s` from `i` on. */
  predicate MatchesFrom(items: seq<Item>, s: string, i: nat)
    requires i <= |s|
    decreases |items|, |s| - i
  {
    if items == [] then i == |s|
    else
      var item, rest := items[0], items[1..];
      if item.atom == Start then i == 0 && MatchesFrom(rest, s, i)
      else if item.atom == End then i == |s| && MatchesFrom(rest, s, i)
      else if !item.star then i < |s| && Accepts(item.atom, s[i]) && MatchesFrom(rest, s, i + 1)
      else MatchesFrom(rest, s, i) || (i < |s| && Accepts(item.atom, s[i]) && MatchesFrom(items, s, i + 1))
  }

  /** `regex_match` with the pattern for a scope. */
  predicate RegexMatches(pattern: string, url: string) {
    Parse(pattern).Some? && MatchesFrom(Parse(pattern).value, url, 0)
  }

  // ---- The scope read as a glob ----

  function Stars(scope: string): nat {
    if scope == "" then 0 else (if scope[0] == '*' then 1 else 0) + Stars(scope[1..])
  }

  /** The scope with its asterisks replaced in turn, and the last replacement appended. */
  function Filled(scope: string, fills: seq<string>): string
    requires |fills| == Stars(scope) + 1
  {
    if scope == "" then fills[0]
    else if scope[0] == '*' then fills[0] + Filled(scope[1..], fills[1..])
    else [scope[0]] + Filled(scope[1..], fills)
  }

  /** The URL is the scope with any strings of such characters for the asterisks, and behind it. */
  ghost predicate Globs(scope: string, url: string, wild: char -> bool) {
    exists fills: seq<string> :: |fills| == Stars(scope) + 1 && AllWild(fills, wild) && url == Filled(scope, fills)
  }

  ghost predicate AllWild(fills: seq<string>, wild: char -> bool) {
    forall fill <- fills, c <- fill :: wild(c)
  }

  predicate Whatever(c: char) { true }

  predicate InLine(c: char) { !IsLineTerminator(c) }

  // ---- Every emitted pattern can be read ----

  function ItemOf(c: char): Item {
    if c == '*' then Item(Any, true) else Item(Literal(c), false)
  }

  function ItemsOf(scope: string): seq<Item> {
    if scope == "" then [Item(Any, true), Item(End, false)] else [ItemOf(scope[0])] + ItemsOf(scope[1..])
  }

  lemma ParsePiece(c: char, rest: string, items: seq<Item>)
    requires rest != "" && rest[0] != '*' && Parse(rest) == Some(items)
    ensures var t := Piece(c) + rest; t[0] != '*' && Parse(t) == Some([ItemOf(c)] + items)
  {
    var t := Piece(c) + rest;
    assert t[|Piece(c)|..] == rest;
  }

  lemma {:induction false} ParsePieces(scope: string)
    ensures var t := Pieces(scope) + ".*$"; t[0] != '*' && Parse(t) == Some(ItemsOf(scope))
  {
    var t := Pieces(scope) + ".*$";
    if scope == "" {
      ParseEnd();
      assert t == ".*$";
    } else {
      var rest := Pieces(scope[1..]) + ".*$";
      ParsePieces(scope[1..]);
      ParsePiece(scope[0], rest, ItemsOf(scope[1..]));
      assert t == Piece(scope[0]) + rest;
    }
  }

  lemma ParseEnd()
    ensures Parse(".*$") == Some(ItemsOf(""))
  {
    var t, end := ".*$", "$";
    assert t[2..] == end && end[1..] == "";
    assert Parse(end) == Prepend(Item(End, false), Parse(""));
    assert Parse(t) == Prepend(Item(Any, true), Parse(end));
    assert [Item(Any, true)] + ([Item(End, false)] + []) == ItemsOf("");
  }

  lemma ParsePattern(scope: string)
    ensures Parse(Pattern(scope)) == Some([Item(Start, false)] + ItemsOf(scope))
  {
    ParsePieces(scope);
    assert Pattern(scope)[1..] == Pieces(scope) + ".*$";
  }

  // ---- How a glob matches, character by character ----

  lemma GlobsEnd(url: string, wild: char -> bool)
    ensures Globs("", url, wild) <==> forall c <- url :: wild(c)
  {
    if forall c <- url :: wild(c) {
      var fills := [url];
      assert AllWild(fills, wild) && Filled("", fills) == url;
    }
  }

  lemma GlobsLiteral(scope: string, url: string, wild: char -> bool)
    requires scope != "" && scope[0] != '*'
    ensures Globs(scope, url, wild) <==> url != "" && url[0] == scope[0] && Globs(scope[1..], url[1..], wild)
  {
    if Globs(scope, url, wild) {
      var fills: seq<string> :| |fills| == Stars(scope) + 1 && AllWild(fills, wild) && url == Filled(scope, fills);
      assert url[1..] == Filled(scope[1..], fills);
    }
    if url != "" && url[0] == scope[0] && Globs(scope[1..], url[1..], wild) {
      var fills: seq<string> :|
        |fills| == Stars(scope[1..]) + 1 && AllWild(fills, wild) && url[1..] == Filled(scope[1..], fills);
      assert url == [url[0]] + url[1..] == Filled(scope, fills);
    }
  }

  lemma GlobsSkip(scope: string, url: string, wild: char -> bool)
    requires scope != "" && scope[0] == '*' && Globs(scope[1..], url, wild)
    ensures Globs(scope, url, wild)
  {
    var fills: seq<string> :|
      |fills| == Stars(scope[1..]) + 1 && AllWild(fills, wild) && url == Filled(scope[1..], fills);
    var more := [""] + fills;
    assert more[1..] == fills;
    assert AllWild(more, wild) && Filled(scope, more) == url;
  }

  lemma GlobsTake(scope: string, url: string, wild: char -> bool)
    requires scope != "" && scope[0] == '*' && url != "" && wild(url[0]) && Globs(scope, url[1..], wild)
    ensures Globs(scope, url, wild)
  {
    var fills: seq<string> :|
      |fills| == Stars(scope) + 1 && AllWild(fills, wild) && url[1..] == Filled(scope, fills);
    var more := [[url[0]] + fills[0]] + fills[1..];
    assert AllWild(more, wild) by {
      assert fills[0] in fills;
    }
    assert more[1..] == fills[1..];
    assert Filled(scope, more) == [url[0]] + fills[0] + Filled(scope[1..], fills[1..]) == [url[0]] + url[1..] == url;
  }

  lemma GlobsStar(scope: string, url: string, wild: char -> bool)
    requires scope != "" && scope[0] == '*' && Globs(scope, url, wild)
    ensures Globs(scope[1..], url, wild) || (url != "" && wild(url[0]) && Globs(scope, url[1..], wild))
  {
    var fills: seq<string> :| |fills| == Stars(scope) + 1 && AllWild(fills, wild) && url == Filled(scope, fills);
    if fills[0] == "" {
      assert forall fill <- fills[1..] :: fill in fills;
      assert url == Filled(scope[1..], fills[1..]);
    } else {
      ShortenFill(scope, fills, wild);
    }
  }

  lemma ShortenFill(scope: string, fills: seq<string>, wild: char -> bool)
    requires scope != "" && scope[0] == '*' && |fills| == Stars(scope) + 1 && AllWild(fills, wild) && fills[0] != ""
    ensures var url := Filled(scope, fills); url != "" && wild(url[0]) && Globs(scope, url[1..], wild)
  {
    var url, first, rest := Filled(scope, fills), fills[0], fills[1..];
    var fewer := [first[1..]] + rest;
    assert AllWild(fewer, wild) by {
      assert first in fills && forall c <- first[1..] :: c in first;
      assert forall fill <- rest :: fill in fills;
    }
    assert fewer[1..] == rest;
    assert url[0] == first[0] && first[0] in first && first in fills;
    assert url[1..] == Filled(scope, fewer);
  }

  // ---- The pattern means the glob ----

  lemma {:induction false} MatchesEnd(s: string, i: nat)
    requires i <= |s|
    ensures MatchesFrom(ItemsOf(""), s, i) <==> forall c <- s[i..] :: InLine(c)
    decreases |s| - i
  {
    var end := ItemsOf("")[1..];
    assert end == [Item(End, false)] && end[1..] == [];
    assert MatchesFrom(end, s, i) <==> i == |s|;
    if i < |s| {
      MatchesEnd(s, i + 1);
      assert s[i..] == [s[i]] + s[i + 1..];
      assert MatchesFrom(ItemsOf(""), s, i) <==> InLine(s[i]) && MatchesFrom(ItemsOf(""), s, i + 1);
    }
  }

  /** The items for the scope match what is left of `s` just when it is the scope as a glob. */
  ghost predicate Agree(scope: string, s: string, i: nat) {
    i <= |s| && (MatchesFrom(ItemsOf(scope), s, i) <==> Globs(scope, s[i..], InLine))
  }

  lemma LiteralAgrees(scope: string, s: string, i: nat)
    requires i <= |s| && scope != "" && scope[0] != '*' && (i < |s| ==> Agree(scope[1..], s, i + 1))
    ensures Agree(scope, s, i)
  {
    var url := s[i..];
    assert i < |s| ==> url[0] == s[i] && url[1..] == s[i + 1..];
    assert ItemsOf(scope)[1..] == ItemsOf(scope[1..]);
    GlobsLiteral(scope, url, InLine);
  }

  lemma StarAgrees(scope: string, s: string, i: nat)
    requires i <= |s| && scope != "" && scope[0] == '*'
    requires Agree(scope[1..], s, i) && (i < |s| ==> Agree(scope, s, i + 1))
    ensures Agree(scope, s, i)
  {
    var url := s[i..];
    assert i < |s| ==> url[0] == s[i] && url[1..] == s[i + 1..];
    assert ItemsOf(scope)[1..] == ItemsOf(scope[1..]);
    MatchesStar(scope, url);
  }

  lemma {:induction false} MatchesGlob(scope: string, s: string, i: nat)
    requires i <= |s|
    ensures Agree(scope, s, i)
    decreases |scope|, |s| - i
  {
    if scope == "" {
      MatchesEnd(s, i);
      GlobsEnd(s[i..], InLine);
    } else if scope[0] != '*' {
      if i < |s| {
        MatchesGlob(scope[1..], s, i + 1);
      }
      LiteralAgrees(scope, s, i);
    } else {
      MatchesGlob(scope[1..], s, i);
      if i < |s| {
        MatchesGlob(scope, s, i + 1);
      }
      StarAgrees(scope, s, i);
    }
  }

  lemma MatchesStar(scope: string, url: string)
    requires scope != "" && scope[0] == '*'
    ensures Globs(scope, url, InLine)
       <==> Globs(scope[1..], url, InLine) || (url != "" && InLine(url[0]) && Globs(scope, url[1..], InLine))
  {
    if Globs(scope, url, InLine) {
      GlobsStar(scope, url, InLine);
    } else if Globs(scope[1..], url, InLine) {
      GlobsSkip(scope, url, InLine);
    } else if url != "" && InLine(url[0]) && Globs(scope, url[1..], InLine) {
      GlobsTake(scope, url, InLine);
    }
  }

  /**
   * For every scope and URL: the pattern can be read, and matches the URL exactly when the URL is
   * the scope with strings within a line for its asterisks and behind it.
   */
  lemma PatternMeansGlob(scope: string, url: string)
    ensures Parse(Pattern(scope)).Some?
    ensures RegexMatches(Pattern(scope), url) <==> Globs(scope, url, InLine)
  {
    ParsePattern(scope);
    var items := [Item(Start, false)] + ItemsOf(scope);
    assert items[1..] == ItemsOf(scope) && url[0..] == url;
    MatchesGlob(scope, url, 0);
  }

  lemma {:induction false} FillsInUrl(scope: string, fills: seq<string>)
    requires |fills| == Stars(scope) + 1
    requires forall c <- Filled(scope, fills) :: InLine(c)
    ensures AllWild(fills, InLine)
  {
    if scope != "" {
      if scope[0] == '*' {
        assert forall c <- fills[0] :: c in Filled(scope, fills);
        assert forall c <- Filled(scope[1..], fills[1..]) :: c in Filled(scope, fills);
        FillsInUrl(scope[1..], fills[1..]);
        assert forall fill <- fills :: fill == fills[0] || fill in fills[1..];
      } else {
        assert forall c <- Filled(scope[1..], fills) :: c in Filled(scope, fills);
        FillsInUrl(scope[1..], fills);
      }
    }
  }

  /** For a URL without line terminators the asterisk stands for any string. */
  lemma PatternMeansPlainGlob(scope: string, url: string)
    requires forall c <- url :: InLine(c)
    ensures RegexMatches(Pattern(scope), url) <==> Globs(scope, url, Whatever)
  {
    PatternMeansGlob(scope, url);
    if Globs(scope, url, Whatever) {
      var fills: seq<string> :| |fills| == Stars(scope) + 1 && AllWild(fills, Whatever) && url == Filled(scope, fills);
      FillsInUrl(scope, fills);
    }
    if Globs(scope, url, InLine) {
      var fills: seq<string> :| |fills| == Stars(scope) + 1 && AllWild(fills, InLine) && url == Filled(scope, fills);
      assert AllWild(fills, Whatever);
    }
  }

  /** These are exactly the URLs for which that is so whatever the scope. */
  lemma PlainGlobExactly(url: string)
    ensures (forall scope :: RegexMatches(Pattern(scope), url) <==> Globs(scope, url, Whatever))
       <==> forall c <- url :: InLine(c)
  {
    if forall c <- url :: InLine(c) {
      forall scope ensures RegexMatches(Pattern(scope), url) <==> Globs(scope, url, Whatever) {
        PatternMeansPlainGlob(scope, url);
      }
    } else {
      PatternMeansGlob("", url);
      GlobsEnd(url, InLine);
      GlobsEnd(url, Whatever);
      assert Globs("", url, Whatever) && !RegexMatches(Pattern(""), url);
    }
  }
}
