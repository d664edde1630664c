/** Strings as the C++ code handles them: bytes, searching, joining and splitting. */
module Text {

  /** A `std::string` of the original holds octets. */
  predicate IsBytes(s: string) {
    forall c <- s :: c as int < 256
  }

  datatype Option<+T> = None | Some(value: T) {
    function GetOr(default: T): T {
      if Some? then value else default
    }
  }

  /** Position of the first `c` at or after `from`; the length of `s` stands for `npos`. */
  function IndexOf(s: string, c: char, from: nat): (r: nat)
    requires from <= |s|
    ensures from <= r <= |s|
    ensures r < |s| ==> s[r] == c
    decreases |s| - from
  {
    if from == |s| || s[from] == c then from else IndexOf(s, c, from + 1)
  }

  lemma {:induction false} IndexOfFirst(s: string, c: char, from: nat)
    requires from <= |s|
    ensures c !in s[from..IndexOf(s, c, from)]
    decreases |s| - from
  {
    var i := IndexOf(s, c, from);
    if from < i {
      IndexOfFirst(s, c, from + 1);
      assert s[from..i] == [s[from]] + s[from + 1..i];
    }
  }

  /** The only position with these properties. */
  lemma {:induction false} IndexOfUnique(s: string, c: char, from: nat, r: nat)
    requires from <= r <= |s|
    requires r < |s| ==> s[r] == c
    requires forall k :: from <= k < r ==> s[k] != c
    ensures IndexOf(s, c, from) == r
    decreases r - from
  {
    if from < r {
      IndexOfUnique(s, c, from + 1, r);
    }
  }

  /** Text in front of the starting position does not matter. */
  lemma IndexOfBehind(front: string, s: string, c: char, from: nat)
    requires from <= |s|
    ensures IndexOf(front + s, c, |front| + from) == |front| + IndexOf(s, c, from)
  {
    var i := IndexOf(s, c, from);
    IndexOfFirst(s, c, from);
    forall k | |front| + from <= k < |front| + i ensures (front + s)[k] != c {
      assert (front + s)[k] == s[from..i][k - |front| - from];
    }
    IndexOfUnique(front + s, c, |front| + from, |front| + i);
  }

  function Join(parts: seq<string>, sep: string): string {
    if |parts| == 0 then ""
    else if |parts| == 1 then parts[0]
    else parts[0] + sep + Join(parts[1..], sep)
  }

  /** The pieces of `s` between the occurrences of `c`; there is always at least one. */
  function Split(s: string, c: char): (r: seq<string>)
    ensures |r| >= 1
    decreases |s|
  {
    var i := IndexOf(s, c, 0);
    if i == |s| then [s] else [s[..i]] + Split(s[i + 1..], c)
  }

  lemma SplitFirst(a: string, c: char, rest: string)
    requires c !in a
    ensures Split(a + [c] + rest, c) == [a] + Split(rest, c)
  {
    var s := a + [c] + rest;
    IndexOfUnique(s, c, 0, |a|);
    assert s[..|a|] == a && s[|a| + 1..] == rest;
  }

  lemma SplitNone(a: string, c: char)
    requires c !in a
    ensures Split(a, c) == [a]
  {
    IndexOfUnique(a, c, 0, |a|);
  }

  /** Splitting what stands from a position on: the piece up to the next separator comes first. */
  lemma SplitFrom(s: string, c: char, from: nat)
    requires from <= |s| && IndexOf(s, c, from) < |s|
    ensures var i := IndexOf(s, c, from); Split(s[from..], c) == [s[from..i]] + Split(s[i + 1..], c)
  {
    var i := IndexOf(s, c, from);
    IndexOfFirst(s, c, from);
    CutAt(s, from, i);
    SplitFirst(s[from..i], c, s[i + 1..]);
  }

  lemma CutAt(s: string, from: nat, i: nat)
    requires from <= i < |s|
    ensures s[from..] == s[from..i] + [s[i]] + s[i + 1..]
  {
  }

  lemma SplitLast(s: string, c: char, from: nat)
    requires from <= |s| && IndexOf(s, c, from) == |s|
    ensures Split(s[from..], c) == [s[from..]]
  {
    IndexOfFirst(s, c, from);
    assert s[from..|s|] == s[from..];
    SplitNone(s[from..], c);
  }

  /** Splitting undoes joining when no part holds the separator. */
  lemma {:induction false} SplitJoin(parts: seq<string>, c: char)
    requires |parts| >= 1
    requires forall p <- parts :: c !in p
    ensures Split(Join(parts, [c]), c) == parts
  {
    if |parts| == 1 {
      SplitNone(parts[0], c);
    } else {
      SplitJoin(parts[1..], c);
      SplitFirst(parts[0], c, Join(parts[1..], [c]));
    }
  }

  lemma JoinMore(first: string, rest: seq<string>, sep: string)
    requires rest != []
    ensures Join([first] + rest, sep) == first + sep + Join(rest, sep)
  {
    assert ([first] + rest)[1..] == rest;
  }

  /** Joining undoes splitting. */
  lemma {:induction false} JoinSplit(s: string, c: char)
    ensures Join(Split(s, c), [c]) == s && forall p <- Split(s, c) :: c !in p
    decreases |s|
  {
    var i := IndexOf(s, c, 0);
    IndexOfFirst(s, c, 0);
    assert s[0..i] == s[..i];
    if i < |s| {
      var first, rest := s[..i], s[i + 1..];
      JoinSplit(rest, c);
      JoinMore(first, Split(rest, c), [c]);
      assert s == first + [c] + rest;
    } else {
      assert s[..i] == s;
    }
  }

  lemma {:induction false} SplitConcat(a: string, b: string, c: char)
    ensures Split(a + [c] + b, c) == Split(a, c) + Split(b, c)
    decreases |a|
  {
    var i := IndexOf(a, c, 0);
    IndexOfFirst(a, c, 0);
    if i == |a| {
      SplitNone(a, c);
      SplitFirst(a, c, b);
    } else {
      var head, rest := a[..i], a[i + 1..];
      calc {
        Split(a + [c] + b, c);
        { assert a + [c] + b == head + [c] + (rest + [c] + b); }
        Split(head + [c] + (rest + [c] + b), c);
        { SplitFirst(head, c, rest + [c] + b); }
        [head] + Split(rest + [c] + b, c);
        { SplitConcat(rest, b, c); }
        [head] + (Split(rest, c) + Split(b, c));
        ([head] + Split(rest, c)) + Split(b, c);
        { assert Split(a, c) == [head] + Split(rest, c); }
        Split(a, c) + Split(b, c);
      }
    }
  }
}
