/** Appending to the path of a URI (`URIComponents::appendPath` and `encode` in `uri.cpp`). */
module Uri {
  import opened Text
  import opened Percent

  /** What `URIComponents::encode` keeps, and the same with the path separator kept too. */
  const URI := Encoder(true, false, false)
  const PATH := Encoder(true, true, false)

  /** What each of them writes: what is kept stands for itself, all else is escaped in lower case. */
  lemma UriEncodedExactly(s: string, t: string)
    requires IsBytes(s)
    ensures t == URI.Encode(s) <==> IsNormal(t, "-._~!$&'()*+,;=", 'a') && Decode(t) == s
  {
    EncodedExactly(URI, s, t, "-._~!$&'()*+,;=", 'a');
  }

  lemma PathEncodedExactly(s: string, t: string)
    requires IsBytes(s)
    ensures t == PATH.Encode(s) <==> IsNormal(t, "-._~!$&'()*+,;=/", 'a') && Decode(t) == s
  {
    EncodedExactly(PATH, s, t, "-._~!$&'()*+,;=/", 'a');
  }

  predicate EndsWithSlash(path: string) {
    path != "" && path[|path| - 1] == '/'
  }

  function AppendSegment(path: string, segment: string): string {
    (if EndsWithSlash(path) then path else path + "/") + segment
  }

  /** One piece of a path, as it is printed and as the caller means it. */
  function PushEncoded(path: string, piece: string): string {
    AppendSegment(path, URI.Encode(piece))
  }

  function PushPlain(path: string, piece: string): string {
    AppendSegment(path, piece)
  }

  /**
   * Pushes the pieces of `part` between slashes, from position `from` on. An empty piece is
   * skipped, except for the last one.
   */
  function AppendFrom(push: (string, string) -> string, path: string, part: string, from: nat): string
    requires from <= |part|
    decreases |part| - from
  {
    var end := IndexOf(part, '/', from);
    if end < |part| && end == from then AppendFrom(push, path, part, from + 1)
    else
      var longer := push(path, part[from..end]);
      if end == |part| then longer else AppendFrom(push, longer, part, end + 1)
  }

  function Append(push: (string, string) -> string, path: string, part: string): string {
    AppendFrom(push, path, part, 0)
  }

  // ---- The loops ----

  lemma EncodeInPlaceStep(str: string, head: string, rest: string)
    requires rest != [] && str == head + rest
    ensures str[|head|] == rest[0]
    ensures var code := URI.EncodeByte(rest[0]);
      && str[..|head|] + code + str[|head| + 1..] == head + code + rest[1..]
      && head + code + URI.Encode(rest[1..]) == head + URI.Encode(rest)
  {
    assert str[..|head|] == head && str[|head| + 1..] == rest[1..];
  }

  method Encode(input: string) returns (str: string)
    ensures str == URI.Encode(input)
  {
    str := input;
    var i := 0;
    ghost var head, rest := "", input;
    while i < |str|
      invariant i == |head| && str == head + rest
      invariant head + URI.Encode(rest) == URI.Encode(input)
      decreases |rest|
    {
      EncodeInPlaceStep(str, head, rest);
      ghost var code := URI.EncodeByte(rest[0]);
      if URI.Keeps(str[i]) {
        assert str == str[..i] + code + str[i + 1..];
        i := i + 1;
      } else {
        var codepoint := str[i] as int;
        var hex := ['%', HexDigit(codepoint / 16 % 16, false), HexDigit(codepoint % 16, false)];
        str := str[..i] + hex + str[i + 1..];
        i := i + |hex|;
      }
      head, rest := head + code, rest[1..];
    }
  }

  class URIComponents {
    var scheme: string
    var host: string
    var path: string
    var port: nat
    var query: string

    method PushSegment(segment: string)
      modifies this`path
      ensures path == PushEncoded(old(path), segment)
    {
      if path == "" || path[|path| - 1] != '/' {
        path := path + "/";
      }
      var encoded := Encode(segment);
      path := path + encoded;
    }

    method AppendPath(part: string)
      modifies this`path
      ensures path == Append(PushEncoded, old(path), part)
    {
      ghost var appending := Appending(part);
      ghost var goal := appending(path, 0);
      var partBegin := 0;
      while true
        invariant partBegin <= |part| && appending(path, partBegin) == goal
        decreases |part| - partBegin
      {
        AppendRound(path, part, partBegin);
        var partEnd := IndexOf(part, '/', partBegin);
        if partEnd < |part| && partEnd == partBegin {
          partBegin := partBegin + 1;
        } else {
          PushSegment(part[partBegin..partEnd]);
          if partEnd == |part| {
            return;
          }
          partBegin := partEnd + 1;
        }
      }
    }
  }

  /** What comes out in the end, given the path so far and the position, as a value that proofs can pass along. */
  ghost function Appending(part: string): (string, nat) -> string {
    (path, from: nat) => if from <= |part| then AppendFrom(PushEncoded, path, part, from) else path
  }

  lemma AppendRound(path: string, part: string, from: nat)
    requires from <= |part|
    ensures var end := IndexOf(part, '/', from); var longer := PushEncoded(path, part[from..end]);
      Appending(part)(path, from)
        == if end == |part| then longer
           else if end == from then Appending(part)(path, from + 1) else Appending(part)(longer, end + 1)
  {
  }

  // ---- Laws of appending ----

  /** Pushing an empty piece first makes no difference. */
  ghost predicate AbsorbsEmpty(push: (string, string) -> string) {
    forall path, piece :: push(push(path, ""), piece) == push(path, piece)
  }

  lemma BothAbsorbEmpty()
    ensures AbsorbsEmpty(PushEncoded) && AbsorbsEmpty(PushPlain)
  {
    forall path, piece ensures PushPlain(PushPlain(path, ""), piece) == PushPlain(path, piece) {
      SlashThenSegment(path, piece);
    }
    forall path, piece ensures PushEncoded(PushEncoded(path, ""), piece) == PushEncoded(path, piece) {
      SlashThenSegment(path, URI.Encode(piece));
    }
  }

  lemma SlashThenSegment(path: string, segment: string)
    ensures AppendSegment(AppendSegment(path, ""), segment) == AppendSegment(path, segment)
  {
  }

  /** A trailing slash makes no difference to what is appended next. */
  lemma {:induction false} SlashAbsorbed(push: (string, string) -> string, path: string, part: string, from: nat)
    requires AbsorbsEmpty(push) && from <= |part|
    ensures AppendFrom(push, push(path, ""), part, from) == AppendFrom(push, path, part, from)
    decreases |part| - from
  {
    var end := IndexOf(part, '/', from);
    if end < |part| && end == from {
      SlashAbsorbed(push, path, part, from + 1);
    }
  }

  lemma SliceBehind(x: string, b: string, i: nat, j: nat)
    requires i <= j <= |b|
    ensures (x + b)[|x| + i..|x| + j] == b[i..j]
  {
  }

  /** Text in front of the starting position does not matter. */
  lemma {:induction false} AppendBehind(push: (string, string) -> string, path: string, x: string, b: string, from: nat)
    requires from <= |b|
    ensures AppendFrom(push, path, x + b, |x| + from) == AppendFrom(push, path, b, from)
    decreases |b| - from
  {
    var end := IndexOf(b, '/', from);
    IndexOfBehind(x, b, '/', from);
    SliceBehind(x, b, from, end);
    if end == from < |b| {
      AppendBehind(push, path, x, b, end + 1);
    } else if end < |b| {
      AppendBehind(push, push(path, b[from..end]), x, b, end + 1);
    }
  }

  lemma IndexOfInFront(a: string, b: string, from: nat)
    requires from <= |a|
    ensures IndexOf(a + "/" + b, '/', from) == IndexOf(a, '/', from)
  {
    var end := IndexOf(a, '/', from);
    IndexOfFirst(a, '/', from);
    forall k | from <= k < end ensures (a + "/" + b)[k] != '/' {
      assert (a + "/" + b)[k] == a[from..end][k - from];
    }
    IndexOfUnique(a + "/" + b, '/', from, end);
  }

  lemma SliceInFront(a: string, b: string, i: nat, j: nat)
    requires i <= j <= |a|
    ensures (a + "/" + b)[i..j] == a[i..j]
  {
  }

  lemma {:induction false} AppendJoined(push: (string, string) -> string, path: string, a: string, b: string, from: nat)
    requires AbsorbsEmpty(push) && from <= |a|
    ensures Append(push, AppendFrom(push, path, a, from), b) == AppendFrom(push, path, a + "/" + b, from)
    decreases |a| - from
  {
    var end := IndexOf(a, '/', from);
    IndexOfInFront(a, b, from);
    SliceInFront(a, b, from, end);
    var piece := a[from..end];
    var longer := if end == from then path else push(path, piece);
    if end < |a| {
      AppendJoined(push, longer, a, b, end + 1);
    } else {
      AppendBehind(push, longer, a + "/", b, 0);
      if end == from {
        assert piece == "";
        SlashAbsorbed(push, path, b, 0);
      }
    }
  }

  /** Appending twice is appending once with a slash in between. */
  lemma AppendTwice(path: string, a: string, b: string)
    ensures Append(PushEncoded, Append(PushEncoded, path, a), b) == Append(PushEncoded, path, a + "/" + b)
  {
    BothAbsorbEmpty();
    AppendJoined(PushEncoded, path, a, b, 0);
  }

  predicate NoDoubleSlash(s: string) {
    forall i :: 0 <= i < |s| - 1 ==> s[i] != '/' || s[i + 1] != '/'
  }

  lemma SegmentShape(path: string, segment: string)
    requires NoDoubleSlash(path) && '/' !in segment
    ensures NoDoubleSlash(AppendSegment(path, segment))
    ensures EndsWithSlash(AppendSegment(path, segment)) <==> segment == ""
  {
    var base := if EndsWithSlash(path) then path else path + "/";
    assert NoDoubleSlash(base);
    if segment != "" {
      assert segment[|segment| - 1] in segment;
    }
  }

  ghost predicate KeepsShape(push: (string, string) -> string) {
    forall path, piece :: NoDoubleSlash(path) && '/' !in piece ==>
      NoDoubleSlash(push(path, piece)) && (EndsWithSlash(push(path, piece)) <==> piece == "")
  }

  lemma PushEncodedKeepsShape()
    ensures KeepsShape(PushEncoded)
  {
    forall path, piece | NoDoubleSlash(path) && '/' !in piece
      ensures NoDoubleSlash(PushEncoded(path, piece)) && (EndsWithSlash(PushEncoded(path, piece)) <==> piece == "")
    {
      EncodeAlphabet(URI, piece);
      SegmentShape(path, URI.Encode(piece));
    }
  }

  lemma {:induction false} AppendFromShape(push: (string, string) -> string, path: string, part: string, from: nat)
    requires KeepsShape(push) && NoDoubleSlash(path) && from <= |part|
    ensures var r := AppendFrom(push, path, part, from);
      NoDoubleSlash(r) && (EndsWithSlash(r) <==> from == |part| || EndsWithSlash(part))
    decreases |part| - from
  {
    var end := IndexOf(part, '/', from);
    IndexOfFirst(part, '/', from);
    var piece := part[from..end];
    if end == |part| {
      assert piece != "" ==> piece[|piece| - 1] == part[|part| - 1] && piece[|piece| - 1] in piece;
    } else if end == from {
      AppendFromShape(push, path, part, end + 1);
    } else {
      AppendFromShape(push, push(path, piece), part, end + 1);
    }
  }

  /** Appending introduces no empty segment, and keeps exactly the trailing slash of what is appended. */
  lemma AppendShape(path: string, part: string)
    requires NoDoubleSlash(path)
    ensures NoDoubleSlash(Append(PushEncoded, path, part))
    ensures EndsWithSlash(Append(PushEncoded, path, part)) <==> part == "" || EndsWithSlash(part)
  {
    PushEncodedKeepsShape();
    AppendFromShape(PushEncoded, path, part, 0);
  }

  // ---- The printed path is the encoding of the plain one ----

  lemma {:induction false} EncodeSegment(s: string)
    requires '/' !in s
    ensures URI.Encode(s) == PATH.Encode(s)
  {
    if s != [] {
      assert s[0] in s;
      EncodeSegment(s[1..]);
    }
  }

  lemma EncodeLast(path: string)
    ensures EndsWithSlash(PATH.Encode(path)) == EndsWithSlash(path)
  {
    if path != "" {
      var k := |path| - 1;
      EncodeAppend(PATH, path, k);
      assert path[..k + 1] == path;
    }
  }

  lemma PushIsEncoded(path: string, segment: string)
    requires '/' !in segment
    ensures PushEncoded(PATH.Encode(path), segment) == PATH.Encode(PushPlain(path, segment))
  {
    var base := if EndsWithSlash(path) then path else path + "/";
    EncodeLast(path);
    EncodeSegment(segment);
    EncodeConcat(PATH, path, "/");
    assert PATH.Encode("/") == "/";
    EncodeConcat(PATH, base, segment);
  }

  ghost predicate Commutes(f: string -> string, push: (string, string) -> string, plain: (string, string) -> string) {
    forall path, piece :: '/' !in piece ==> push(f(path), piece) == f(plain(path, piece))
  }

  lemma {:induction false} AppendCommutes(f: string -> string, push: (string, string) -> string,
                                          plain: (string, string) -> string, path: string, part: string, from: nat)
    requires Commutes(f, push, plain) && from <= |part|
    ensures AppendFrom(push, f(path), part, from) == f(AppendFrom(plain, path, part, from))
    decreases |part| - from
  {
    var end := IndexOf(part, '/', from);
    IndexOfFirst(part, '/', from);
    var piece := part[from..end];
    if end == from < |part| {
      AppendCommutes(f, push, plain, path, part, end + 1);
    } else if end < |part| {
      AppendCommutes(f, push, plain, plain(path, piece), part, end + 1);
    }
  }

  function EncodePath(path: string): string {
    PATH.Encode(path)
  }

  lemma AppendIsEncoded(path: string, part: string)
    ensures Append(PushEncoded, EncodePath(path), part) == EncodePath(Append(PushPlain, path, part))
  {
    forall p, piece | '/' !in piece ensures PushEncoded(EncodePath(p), piece) == EncodePath(PushPlain(p, piece)) {
      PushIsEncoded(p, piece);
    }
    AppendCommutes(EncodePath, PushEncoded, PushPlain, path, part, 0);
  }

  // ---- Which paths are appended unchanged ----

  lemma PushPlainKeepsShape()
    ensures KeepsShape(PushPlain)
  {
    forall path, piece | NoDoubleSlash(path) && '/' !in piece
      ensures NoDoubleSlash(PushPlain(path, piece)) && (EndsWithSlash(PushPlain(path, piece)) <==> piece == "")
    {
      SegmentShape(path, piece);
    }
  }

  lemma {:induction false} AppendFromStarts(path: string, part: string, from: nat)
    requires from <= |part| && (path == "" || path[0] == '/')
    ensures var r := AppendFrom(PushPlain, path, part, from); r != "" && r[0] == '/'
    decreases |part| - from
  {
    var end := IndexOf(part, '/', from);
    if end == from < |part| {
      AppendFromStarts(path, part, end + 1);
    } else if end < |part| {
      AppendFromStarts(PushPlain(path, part[from..end]), part, end + 1);
    }
  }

  lemma PushNext(part: string, from: nat, end: nat)
    requires 0 < from <= end <= |part| && part[from - 1] == '/' && !EndsWithSlash(part[..from - 1])
    ensures PushPlain(part[..from - 1], part[from..end]) == part[..end]
  {
    assert part[..from - 1] + "/" == part[..from];
  }

  /** The pieces behind a slash are put together again as they stood. */
  lemma {:induction false} AppendRest(part: string, from: nat)
    requires 0 < from <= |part| && part[from - 1] == '/' && NoDoubleSlash(part)
    ensures AppendFrom(PushPlain, part[..from - 1], part, from) == part
    decreases |part| - from
  {
    var end := IndexOf(part, '/', from);
    PushNext(part, from, end);
    if end < |part| {
      AppendRest(part, end + 1);
    } else {
      assert part[..end] == part;
    }
  }

  /**
   * Appended to nothing, a path comes out as it is exactly when it starts with a slash and has no
   * two slashes in a row; all other slashes are lost or gained.
   */
  lemma PathKeptExactly(part: string)
    ensures Append(PushPlain, "", part) == part <==> part != "" && part[0] == '/' && NoDoubleSlash(part)
  {
    if part != "" && part[0] == '/' && NoDoubleSlash(part) {
      assert part[..0] == "";
      AppendRest(part, 1);
    }
    PushPlainKeepsShape();
    AppendFromShape(PushPlain, "", part, 0);
    AppendFromStarts("", part, 0);
  }
}
