/**
 * The body of a token request (`requestToken`), and what its signature is computed from
 * (`parseBodyParams`).
 */
module TokenRequest {
  import opened Percent
  import opened Text
  import opened TokenCache

  /** `encode_uri_component` and `decode_uri_component`, which are library code. */
  type Coder = string -> string

  const CLIENT_CREDENTIALS := "client_credentials"
  const REFRESH_TOKEN := "refresh_token"

  predicate IsNameChar(c: char) {
    c == '_' || 'a' <= c <= 'z'
  }

  /** Lower-case letters and underscores. */
  predicate IsName(s: string) {
    forall k :: 0 <= k < |s| ==> IsNameChar(s[k])
  }

  /** What is assumed of the library. */
  ghost predicate IsCodec(encode: Coder, decode: Coder) {
    && (forall s :: IsBytes(s) ==> decode(encode(s)) == s && '&' !in encode(s))
    && (forall s :: IsName(s) ==> encode(s) == s)
  }

  datatype Field = Field(name: string, value: string)

  /** The fields of a request, of which the first is written without encoding. */
  function Fields(grant: Grant, audience: string): seq<Field> {
    match grant
    case Mint(_, scopes) =>
      [Field("grant_type", CLIENT_CREDENTIALS)]
      + (if scopes == [] then [] else [Field("scope", Join(scopes, " "))])
      + (if audience == "" then [] else [Field("audience", audience)])
    case Refresh(_, token) => [Field("grant_type", REFRESH_TOKEN), Field("refresh_token", token)]
  }

  function Written(f: Field, encode: Coder): string {
    f.name + "=" + encode(f.value)
  }

  function WrittenAll(fields: seq<Field>, encode: Coder): string {
    if fields == [] then ""
    else if |fields| == 1 then Written(fields[0], encode)
    else Written(fields[0], encode) + "&" + WrittenAll(fields[1..], encode)
  }

  lemma GrantTypesAreNames()
    ensures IsName(CLIENT_CREDENTIALS) && IsName(REFRESH_TOKEN)
  {
  }

  lemma {:induction false} WrittenOneMore(fields: seq<Field>, f: Field, encode: Coder)
    requires fields != []
    ensures WrittenAll(fields + [f], encode) == WrittenAll(fields, encode) + "&" + Written(f, encode)
  {
    if |fields| == 1 {
      assert (fields + [f])[1..] == [f];
    } else {
      assert (fields + [f])[1..] == fields[1..] + [f];
      WrittenOneMore(fields[1..], f, encode);
    }
  }

  lemma WrittenFirst(name: string, value: string, encode: Coder)
    requires encode(value) == value
    ensures WrittenAll([Field(name, value)], encode) == name + "=" + value
  {
  }

  lemma WrittenNext(fields: seq<Field>, name: string, value: string, encode: Coder, sign: string)
    requires fields != [] && sign == "&" + name + "="
    ensures WrittenAll(fields + [Field(name, value)], encode) == WrittenAll(fields, encode) + sign + encode(value)
  {
    WrittenOneMore(fields, Field(name, value), encode);
    assert WrittenAll(fields, encode) + "&" + (name + "=" + encode(value))
        == WrittenAll(fields, encode) + sign + encode(value);
  }

  /** The body in full. */
  lemma MintBody(url: string, scopes: seq<string>, audience: string, encode: Coder)
    requires forall s :: IsName(s) ==> encode(s) == s
    ensures var start := "grant_type=client_credentials";
      var scoped := if scopes == [] then start else start + "&scope=" + encode(Join(scopes, " "));
      WrittenAll(Fields(Mint(url, scopes), audience), encode)
        == if audience == "" then scoped else scoped + "&audience=" + encode(audience)
  {
    var first := [Field("grant_type", CLIENT_CREDENTIALS)];
    var scope, rest := Field("scope", Join(scopes, " ")), Field("audience", audience);
    FirstWritten(encode);
    WrittenNext(first, "scope", scope.value, encode, "&scope=");
    var fields := if scopes == [] then first else first + [scope];
    WrittenNext(fields, "audience", audience, encode, "&audience=");
    assert Fields(Mint(url, scopes), audience) == if audience == "" then fields else fields + [rest];
  }

  lemma FirstWritten(encode: Coder)
    requires forall s :: IsName(s) ==> encode(s) == s
    ensures WrittenAll([Field("grant_type", CLIENT_CREDENTIALS)], encode) == "grant_type=client_credentials"
    ensures WrittenAll([Field("grant_type", REFRESH_TOKEN)], encode) == "grant_type=refresh_token"
  {
    GrantTypesAreNames();
    WrittenFirst("grant_type", CLIENT_CREDENTIALS, encode);
    WrittenFirst("grant_type", REFRESH_TOKEN, encode);
  }

  lemma RefreshBody(url: string, token: string, audience: string, encode: Coder)
    requires forall s :: IsName(s) ==> encode(s) == s
    ensures WrittenAll(Fields(Refresh(url, token), audience), encode)
      == "grant_type=refresh_token" + "&refresh_token=" + encode(token)
  {
    var first := [Field("grant_type", REFRESH_TOKEN)];
    FirstWritten(encode);
    WrittenNext(first, "refresh_token", token, encode, "&refresh_token=");
    assert first + [Field("refresh_token", token)] == Fields(Refresh(url, token), audience);
  }

  method RequestBody(grant: Grant, audience: string, encode: Coder) returns (body: string)
    requires forall s :: IsName(s) ==> encode(s) == s
    ensures body == WrittenAll(Fields(grant, audience), encode)
  {
    body := "grant_type=" + if grant.Mint? then CLIENT_CREDENTIALS else REFRESH_TOKEN;
    ghost var fields := Fields(grant, audience)[..1];
    GrantTypesAreNames();
    assert body == Written(fields[0], encode);
    if grant.Mint? {
      if grant.scopes != [] {
        var scope := Join(grant.scopes, " ");
        body := AppendField(body, "scope", scope, encode, fields);
        fields := fields + [Field("scope", scope)];
      }
      if audience != "" {
        body := AppendField(body, "audience", audience, encode, fields);
        fields := fields + [Field("audience", audience)];
      }
    } else {
      body := AppendField(body, "refresh_token", grant.token, encode, fields);
      fields := fields + [Field("refresh_token", grant.token)];
    }
    assert fields == Fields(grant, audience);
  }

  method AppendField(before: string, name: string, value: string, encode: Coder, ghost fields: seq<Field>)
    returns (body: string)
    requires fields != [] && before == WrittenAll(fields, encode)
    ensures body == WrittenAll(fields + [Field(name, value)], encode)
  {
    body := before + "&" + name + "=" + encode(value);
    WrittenOneMore(fields, Field(name, value), encode);
    assert body == before + "&" + (name + "=" + encode(value));
  }

  // ---- Reading a body ----

  function Read(params: map<string, string>, pair: string, decode: Coder): map<string, string> {
    var eq := IndexOf(pair, '=', 0);
    if eq == |pair| then params else params[pair[..eq] := decode(pair[eq + 1..])]
  }

  function ReadAll(params: map<string, string>, pairs: seq<string>, decode: Coder): map<string, string>
    decreases |pairs|
  {
    if pairs == [] then params else ReadAll(Read(params, pairs[0], decode), pairs[1..], decode)
  }

  lemma ReadFirst(params: map<string, string>, pair: string, rest: seq<string>, decode: Coder)
    ensures ReadAll(params, [pair] + rest, decode) == ReadAll(Read(params, pair, decode), rest, decode)
  {
    assert ([pair] + rest)[1..] == rest;
  }

  lemma ReadFrom(params: map<string, string>, body: string, start: nat, decode: Coder)
    requires start <= |body|
    ensures var amp := IndexOf(body, '&', start); var params' := Read(params, body[start..amp], decode);
      ReadAll(params, Split(body[start..], '&'), decode)
        == if amp == |body| then params' else ReadAll(params', Split(body[amp + 1..], '&'), decode)
  {
    var amp := IndexOf(body, '&', start);
    if amp < |body| {
      ReadNext(params, body, start, amp, decode);
    } else {
      ReadLast(params, body, start, decode);
    }
  }

  lemma ReadNext(params: map<string, string>, body: string, start: nat, amp: nat, decode: Coder)
    requires start <= amp < |body| && amp == IndexOf(body, '&', start)
    ensures ReadAll(params, Split(body[start..], '&'), decode)
         == ReadAll(Read(params, body[start..amp], decode), Split(body[amp + 1..], '&'), decode)
  {
    SplitFrom(body, '&', start);
    ReadFirst(params, body[start..amp], Split(body[amp + 1..], '&'), decode);
  }

  lemma ReadLast(params: map<string, string>, body: string, start: nat, decode: Coder)
    requires start <= |body| == IndexOf(body, '&', start)
    ensures ReadAll(params, Split(body[start..], '&'), decode) == Read(params, body[start..|body|], decode)
  {
    SplitLast(body, '&', start);
    assert body[start..|body|] == body[start..];
    ReadFirst(params, body[start..], [], decode);
    assert [body[start..]] + [] == [body[start..]];
  }

  method ReadPair(before: map<string, string>, pair: string, decode: Coder) returns (params: map<string, string>)
    ensures params == Read(before, pair, decode)
  {
    params := before;
    var eq := IndexOf(pair, '=', 0);
    if eq < |pair| {
      var key := pair[..eq];
      var value := pair[eq + 1..];
      value := decode(value);
      params := params[key := value];
    }
  }

  method ParseBodyParams(body: string, decode: Coder) returns (params: map<string, string>)
    ensures params == ReadAll(map[], Split(body, '&'), decode)
  {
    params := map[];
    var start := 0;
    ghost var goal := ReadAll(map[], Split(body, '&'), decode);
    assert body[0..] == body;
    while start < |body|
      invariant start <= |body| + 1
      invariant if start <= |body| then ReadAll(params, Split(body[start..], '&'), decode) == goal else params == goal
      decreases |body| + 1 - start
    {
      var amp := IndexOf(body, '&', start);
      ReadFrom(params, body, start, decode);
      params := ReadPair(params, body[start..amp], decode);
      start := amp + 1;
    }
    if start == |body| {
      ReadNothing(params, decode);
      assert body[start..] == "";
    }
  }

  lemma ReadNothing(params: map<string, string>, decode: Coder)
    ensures ReadAll(params, Split("", '&'), decode) == params
  {
    assert Split("", '&') == [""];
  }

  // ---- What is read, for any body ----

  /** The pair gives the name this value: the name ends at the first equals sign. */
  predicate Assigns(pair: string, name: string, value: string) {
    pair == name + "=" + value && '=' !in name
  }

  ghost predicate NoneAssigns(pairs: seq<string>, name: string, from: nat) {
    forall j, value :: from <= j < |pairs| ==> !Assigns(pairs[j], name, value)
  }

  ghost predicate LastAssigns(pairs: seq<string>, name: string, value: string, k: nat) {
    k < |pairs| && Assigns(pairs[k], name, value) && NoneAssigns(pairs, name, k + 1)
  }

  lemma ReadExactly(params: map<string, string>, pair: string, decode: Coder, name: string)
    ensures var r := Read(params, pair, decode);
      if exists value :: Assigns(pair, name, value) then
        exists value :: Assigns(pair, name, value) && name in r && r[name] == decode(value)
      else (name in r <==> name in params) && (name in r ==> r[name] == params[name])
  {
    var eq := IndexOf(pair, '=', 0);
    IndexOfFirst(pair, '=', 0);
    assert pair[0..eq] == pair[..eq];
    if eq < |pair| {
      assert pair == pair[..eq] + "=" + pair[eq + 1..];
      assert Assigns(pair, pair[..eq], pair[eq + 1..]);
    }
    if exists value :: Assigns(pair, name, value) {
      var value :| Assigns(pair, name, value);
      IndexOfUnique(pair, '=', 0, |name|);
      assert pair[..|name|] == name && pair[|name| + 1..] == value;
    }
  }

  lemma {:induction false} ReadAllOneMore(params: map<string, string>, pairs: seq<string>, pair: string, decode: Coder)
    ensures ReadAll(params, pairs + [pair], decode) == Read(ReadAll(params, pairs, decode), pair, decode)
    decreases |pairs|
  {
    if pairs == [] {
      ReadFirst(params, pair, [], decode);
      assert [] + [pair] == [pair] + [];
    } else {
      ReadAllOneMore(Read(params, pairs[0], decode), pairs[1..], pair, decode);
      assert (pairs + [pair])[1..] == pairs[1..] + [pair];
    }
  }

  /** For every body: which parameters there are, and that of each the last pair counts. Pairs without a sign do not. */
  lemma {:induction false} ReadAllExactly(pairs: seq<string>, decode: Coder, name: string)
    ensures var r := ReadAll(map[], pairs, decode);
      if name in r then exists k, value :: LastAssigns(pairs, name, value, k) && r[name] == decode(value)
      else NoneAssigns(pairs, name, 0)
    decreases |pairs|
  {
    if pairs != [] {
      var front, last := pairs[..|pairs| - 1], pairs[|pairs| - 1];
      assert pairs == front + [last];
      ReadAllOneMore(map[], front, last, decode);
      ReadExactly(ReadAll(map[], front, decode), last, decode, name);
      ReadAllExactly(front, decode, name);
      var r := ReadAll(map[], pairs, decode);
      if exists value :: Assigns(last, name, value) {
        var value :| Assigns(last, name, value) && name in r && r[name] == decode(value);
        assert LastAssigns(pairs, name, value, |front|);
      } else if name in r {
        var k, value :| LastAssigns(front, name, value, k) && r[name] == decode(value);
        assert LastAssigns(pairs, name, value, k);
      }
    }
  }

  // ---- Reading back what was written ----

  function Assigned(params: map<string, string>, fields: seq<Field>): map<string, string>
    decreases |fields|
  {
    if fields == [] then params else Assigned(params[fields[0].name := fields[0].value], fields[1..])
  }

  /** Fields that can be told apart in a body. */
  ghost predicate IsPlain(f: Field) {
    IsName(f.name) && IsBytes(f.value)
  }

  lemma ReadWritten(params: map<string, string>, f: Field, encode: Coder, decode: Coder)
    requires IsCodec(encode, decode) && IsPlain(f)
    ensures Read(params, Written(f, encode), decode) == params[f.name := f.value]
    ensures '&' !in Written(f, encode)
  {
    var pair := Written(f, encode);
    IndexOfUnique(pair, '=', 0, |f.name|);
    assert pair[..|f.name|] == f.name && pair[|f.name| + 1..] == encode(f.value);
  }

  lemma {:induction false} ReadWrittenAll(params: map<string, string>, fields: seq<Field>, encode: Coder, decode: Coder)
    requires IsCodec(encode, decode) && fields != [] && forall f <- fields :: IsPlain(f)
    ensures ReadAll(params, Split(WrittenAll(fields, encode), '&'), decode) == Assigned(params, fields)
    decreases |fields|
  {
    var pair := Written(fields[0], encode);
    var params' := params[fields[0].name := fields[0].value];
    ReadWritten(params, fields[0], encode, decode);
    if |fields| == 1 {
      SplitNone(pair, '&');
    } else {
      var rest := WrittenAll(fields[1..], encode);
      SplitFirst(pair, '&', rest);
      ReadWrittenAll(params', fields[1..], encode, decode);
    }
  }

  ghost predicate HasBytes(grant: Grant, audience: string) {
    IsBytes(audience) && match grant case Mint(_, scopes) => IsBytes(Join(scopes, " ")) case Refresh(_, token) => IsBytes(token)
  }

  lemma FieldsPlain(grant: Grant, audience: string)
    requires HasBytes(grant, audience)
    ensures forall f <- Fields(grant, audience) :: IsPlain(f)
  {
    GrantTypesAreNames();
    FieldNamesAreNames();
    var fields := Fields(grant, audience);
    forall f | f in fields ensures IsPlain(f) {
      assert f.name in ["grant_type", "scope", "audience", "refresh_token"];
      if f.name == "grant_type" {
        NameIsBytes(f.value);
      }
    }
  }

  lemma NameIsBytes(s: string)
    requires IsName(s)
    ensures IsBytes(s)
  {
  }

  lemma FieldNamesAreNames()
    ensures IsName("grant_type") && IsName("scope") && IsName("audience") && IsName("refresh_token")
  {
  }

  /** The signature of a token request covers exactly the fields of its body, with their values. */
  lemma BodyReadBack(grant: Grant, audience: string, encode: Coder, decode: Coder)
    requires IsCodec(encode, decode) && HasBytes(grant, audience)
    ensures var params := ReadAll(map[], Split(WrittenAll(Fields(grant, audience), encode), '&'), decode);
      params == match grant
        case Mint(_, scopes) =>
          map["grant_type" := "client_credentials"]
          + (if scopes == [] then map[] else map["scope" := Join(scopes, " ")])
          + (if audience == "" then map[] else map["audience" := audience])
        case Refresh(_, token) => map["grant_type" := "refresh_token", "refresh_token" := token]
  {
    FieldsPlain(grant, audience);
    ReadWrittenAll(map[], Fields(grant, audience), encode, decode);
    FieldsAssigned(grant, audience);
  }

  lemma FieldsAssigned(grant: Grant, audience: string)
    ensures Assigned(map[], Fields(grant, audience)) == match grant
      case Mint(_, scopes) =>
        map["grant_type" := "client_credentials"]
        + (if scopes == [] then map[] else map["scope" := Join(scopes, " ")])
        + (if audience == "" then map[] else map["audience" := audience])
      case Refresh(_, token) => map["grant_type" := "refresh_token", "refresh_token" := token]
  {
    match grant
    case Mint(_, scopes) =>
      var scope := if scopes == [] then [] else [Field("scope", Join(scopes, " "))];
      var rest := if audience == "" then [] else [Field("audience", audience)];
      AssignedConcat(map[], [Field("grant_type", CLIENT_CREDENTIALS)] + scope, rest);
      AssignedConcat(map[], [Field("grant_type", CLIENT_CREDENTIALS)], scope);
    case Refresh(_, token) =>
      AssignedConcat(map[], [Field("grant_type", REFRESH_TOKEN)], [Field("refresh_token", token)]);
  }

  lemma {:induction false} AssignedConcat(params: map<string, string>, a: seq<Field>, b: seq<Field>)
    ensures Assigned(params, a + b) == Assigned(Assigned(params, a), b)
    decreases |a|
  {
    if a == [] {
      assert a + b == b;
    } else {
      AssignedConcat(params[a[0].name := a[0].value], a[1..], b);
      assert (a + b)[1..] == a[1..] + b;
    }
  }

  /** The assumption about the library can be met. */
  lemma PercentIsCodec()
    ensures IsCodec(FormEncode, Decode)
  {
    forall s | IsBytes(s) ensures Decode(FormEncode(s)) == s && '&' !in FormEncode(s) {
      DecodeEncode(FORM, s);
      EncodeAlphabet(FORM, s);
    }
    forall s | IsName(s) ensures FormEncode(s) == s {
      FormKeeps(s);
    }
  }

  const FORM := Encoder(false, false, true)

  function FormEncode(s: string): string {
    FORM.Encode(s)
  }

  lemma {:induction false} FormKeeps(s: string)
    requires IsName(s)
    ensures FORM.Encode(s) == s
  {
    if s != [] {
      FormKeeps(s[1..]);
      assert s == [s[0]] + s[1..];
    }
  }
}
