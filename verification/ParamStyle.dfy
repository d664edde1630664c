/**
 * Parameter styles: parsing them from an OpenAPI document (`openapi-parser.cpp`) and writing values
 * in them (`openapi-parameter-helper.cpp`, after section 3.2 of RFC 6570).
 */
module ParamStyle {
  import opened Text

  datatype Location = Query | Path | Header

  datatype Style = Simple | Label | Form | Matrix

  datatype Format = StringFormat | Hex | Base64 | Base64url | Binary

  datatype Parameter = Parameter(location: Location, ident: string, field: string, format: Format, style: Style, explode: bool)

  /** What the document says about a parameter; the name is mandatory there. */
  datatype Node = Node(name: Option<string>, requestPart: Option<string>, location: Option<string>,
                       format: Option<string>, style: Option<string>, explode: Option<bool>)

  /** The value-initialised parameter of a map entry that is not there yet. */
  const FRESH := Parameter(Query, "", "", StringFormat, Simple, false)

  /** A style that fits the location, and exploding only where it is allowed. */
  predicate IsLegal(p: Parameter) {
    && (p.style == Form <==> p.location != Path)
    && (p.explode ==> p.location != Header)
  }

  // ---- Parsing; a result of false stands for the exception it throws ----

  function LocationNamed(name: string): (r: Option<Location>)
    ensures r.None? <==> name !in ["query", "path", "header"]
    ensures r == Some(Query) <==> name == "query"
    ensures r == Some(Path) <==> name == "path"
  {
    match name
    case "query" => Some(Query)
    case "path" => Some(Path)
    case "header" => Some(Header)
    case _ => None
  }

  function FormatNamed(name: string): (r: Option<Format>)
    ensures r == Some(StringFormat) <==> name == "string"
    ensures r == Some(Base64) <==> name in ["byte", "base64"]
    ensures r == Some(Base64url) <==> name == "base64url"
    ensures r == Some(Hex) <==> name == "hex"
    ensures r == Some(Binary) <==> name == "binary"
  {
    match name
    case "string" => Some(StringFormat)
    case "byte" => Some(Base64)
    case "base64" => Some(Base64)
    case "base64url" => Some(Base64url)
    case "hex" => Some(Hex)
    case "binary" => Some(Binary)
    case _ => None
  }

  /** The style written at a parameter; a name that is no style counts as none. */
  function StyleNamed(name: string): Option<Style> {
    match name
    case "matrix" => Some(Matrix)
    case "label" => Some(Label)
    case "simple" => Some(Simple)
    case "form" => Some(Form)
    case _ => None
  }

  function StyleOf(node: Node): Option<Style> {
    if node.style.None? then None else StyleNamed(node.style.value)
  }

  /** Every parameter goes by its own name, in a style that fits its location. */
  ghost predicate AllLegal(parameters: map<string, Parameter>) {
    forall name <- parameters :: parameters[name].ident == name && IsLegal(parameters[name])
  }

  class PathEntry {
    var parameters: map<string, Parameter>

    constructor ()
      ensures parameters == map[]
    {
      parameters := map[];
    }

    static method ParseParameterStyle(node: Node, before: Parameter) returns (ok: bool, parameter: Parameter)
      ensures ok <==> StyleOf(node).None? || (StyleOf(node).value == Form <==> before.location != Path)
      ensures ok ==> parameter == before.(style := parameter.style, explode := before.location == Query)
      ensures ok ==> parameter.style == StyleOf(node).GetOr(if before.location == Path then Simple else Form)
    {
      parameter := match before.location
        case Header => before.(style := Form, explode := false)
        case Query => before.(style := Form, explode := true)
        case Path => before.(style := Simple, explode := false);
      if node.style.Some? {
        var styleStr := node.style.value;
        if styleStr == "matrix" {
          if parameter.location != Path {
            return false, parameter;
          }
          parameter := parameter.(style := Matrix);
        }
        if styleStr == "label" {
          if parameter.location != Path {
            return false, parameter;
          }
          parameter := parameter.(style := Label);
        }
        if styleStr == "simple" {
          if parameter.location != Path {
            return false, parameter;
          }
          parameter := parameter.(style := Simple);
        }
        if styleStr == "form" {
          if parameter.location == Path {
            return false, parameter;
          }
          parameter := parameter.(style := Form);
        }
      }
      ok := true;
    }

    static method ParseParameterExplode(node: Node, before: Parameter) returns (ok: bool, parameter: Parameter)
      ensures ok <==> node.explode != Some(true) || before.location != Header
      ensures ok ==> parameter == before.(explode := node.explode.GetOr(before.explode))
    {
      parameter := before;
      if node.explode.Some? {
        parameter := parameter.(explode := node.explode.value);
        if parameter.explode && parameter.location != Query && parameter.location != Path {
          return false, parameter;
        }
      }
      ok := true;
    }

    /** An entry that is named again keeps what the document does not say anew, except style and explode. */
    method ParseMethodParameter(node: Node) returns (ok: bool)
      modifies this
      ensures ok <==> node.name.Some? && (node.requestPart.None? || Fits(node, Entry(old(parameters), node.name.value)))
      ensures ok && node.requestPart.None? ==> parameters == old(parameters)
      ensures ok && node.requestPart.Some? ==>
        parameters == old(parameters)[node.name.value := Parsed(node, Entry(old(parameters), node.name.value))]
    {
      if node.name.None? {
        return false;
      }
      if node.requestPart.None? {
        return true;
      }
      var name := node.name.value;
      var parameter := Entry(parameters, name).(ident := name);
      if node.location.Some? {
        var location := LocationNamed(node.location.value);
        if location.None? {
          return false;
        }
        parameter := parameter.(location := location.value);
      }
      parameter := parameter.(field := node.requestPart.value);
      if node.format.Some? {
        var format := FormatNamed(node.format.value);
        if format.None? {
          return false;
        }
        parameter := parameter.(format := format.value);
      }
      ok, parameter := ParseParameterStyle(node, parameter);
      if !ok {
        return;
      }
      ok, parameter := ParseParameterExplode(node, parameter);
      if !ok {
        return;
      }
      parameters := parameters[name := parameter];
    }

    /** All parameters of a method; the first exception ends the parsing of the document. */
    method ParseParameters(nodes: seq<Node>) returns (ok: bool)
      modifies this
      ensures ok <==> AllParsed(old(parameters), nodes).Some?
      ensures ok ==> parameters == AllParsed(old(parameters), nodes).value
    {
      assert nodes[0..] == nodes;
      for i := 0 to |nodes|
        invariant AllParsed(parameters, nodes[i..]) == AllParsed(old(parameters), nodes)
      {
        assert nodes[i..][1..] == nodes[i + 1..];
        ok := ParseMethodParameter(nodes[i]);
        if !ok {
          return;
        }
      }
      ok := true;
    }
  }

  /** One node after the other, each with what is there already. */
  function AllParsed(parameters: map<string, Parameter>, nodes: seq<Node>): Option<map<string, Parameter>>
    decreases |nodes|
  {
    if nodes == [] then Some(parameters)
    else
      var node := nodes[0];
      if node.name.None? then None
      else if node.requestPart.None? then AllParsed(parameters, nodes[1..])
      else
        var before := Entry(parameters, node.name.value);
        if !Fits(node, before) then None
        else AllParsed(parameters[node.name.value := Parsed(node, before)], nodes[1..])
  }

  /** Every parameter of a document that is not refused has a style that fits its location. */
  lemma {:induction false} AllParsedLegal(parameters: map<string, Parameter>, nodes: seq<Node>)
    requires AllLegal(parameters) && AllParsed(parameters, nodes).Some?
    ensures AllLegal(AllParsed(parameters, nodes).value)
    decreases |nodes|
  {
    if nodes != [] {
      var node := nodes[0];
      if node.requestPart.None? {
        AllParsedLegal(parameters, nodes[1..]);
      } else {
        var before := Entry(parameters, node.name.value);
        ParsedIsLegal(node, before);
        AllParsedLegal(parameters[node.name.value := Parsed(node, before)], nodes[1..]);
      }
    }
  }

  /** A node that ends the parsing of the document, given the parameters there are. */
  predicate Refuses(node: Node, parameters: map<string, Parameter>) {
    node.name.None? || (node.requestPart.Some? && !Fits(node, Entry(parameters, node.name.value)))
  }

  ghost predicate RefusedAt(parameters: map<string, Parameter>, nodes: seq<Node>, k: nat) {
    && k < |nodes| && AllParsed(parameters, nodes[..k]).Some?
    && Refuses(nodes[k], AllParsed(parameters, nodes[..k]).value)
  }

  lemma {:induction false} AllParsedConcat(parameters: map<string, Parameter>, a: seq<Node>, b: seq<Node>)
    ensures AllParsed(parameters, a + b)
         == if AllParsed(parameters, a).None? then None else AllParsed(AllParsed(parameters, a).value, b)
    decreases |a|
  {
    if a == [] {
      assert a + b == b;
    } else {
      assert (a + b)[1..] == a[1..] + b;
      var node := a[0];
      if node.name.Some? && node.requestPart.None? {
        AllParsedConcat(parameters, a[1..], b);
      } else if node.name.Some? && Fits(node, Entry(parameters, node.name.value)) {
        var parsed := Parsed(node, Entry(parameters, node.name.value));
        AllParsedConcat(parameters[node.name.value := parsed], a[1..], b);
      }
    }
  }

  lemma RefusedStays(parameters: map<string, Parameter>, nodes: seq<Node>, k: nat)
    requires RefusedAt(parameters, nodes, k)
    ensures AllParsed(parameters, nodes).None?
  {
    var front := nodes[..k];
    assert nodes == front + nodes[k..];
    AllParsedConcat(parameters, front, nodes[k..]);
    assert nodes[k..][0] == nodes[k];
  }

  /** A document is refused exactly if one of its nodes is, given what the nodes before it made. */
  lemma {:induction false} RefusedExactly(parameters: map<string, Parameter>, nodes: seq<Node>)
    ensures AllParsed(parameters, nodes).None? <==> exists k: nat :: RefusedAt(parameters, nodes, k)
    decreases |nodes|
  {
    if nodes != [] && AllParsed(parameters, nodes).None? {
      var n := |nodes| - 1;
      var front, last := nodes[..n], nodes[n..];
      assert nodes == front + last && last[1..] == [];
      AllParsedConcat(parameters, front, last);
      if AllParsed(parameters, front).Some? {
        assert RefusedAt(parameters, nodes, n);
      } else {
        RefusedExactly(parameters, front);
        var k: nat :| RefusedAt(parameters, front, k);
        assert front[..k] == nodes[..k];
        assert RefusedAt(parameters, nodes, k);
      }
    }
    forall k: nat | RefusedAt(parameters, nodes, k) ensures AllParsed(parameters, nodes).None? {
      RefusedStays(parameters, nodes, k);
    }
  }

  function Entry(parameters: map<string, Parameter>, name: string): Parameter {
    if name in parameters then parameters[name] else FRESH
  }

  function LocationOf(node: Node, before: Parameter): Location {
    if node.location.None? then before.location else LocationNamed(node.location.value).GetOr(before.location)
  }

  /** The node has no unknown location or format, and no style or explode its location does not allow. */
  predicate Fits(node: Node, before: Parameter) {
    && (node.location.Some? ==> LocationNamed(node.location.value).Some?)
    && (node.format.Some? ==> FormatNamed(node.format.value).Some?)
    && (StyleOf(node).Some? ==> (StyleOf(node).value == Form <==> LocationOf(node, before) != Path))
    && (node.explode == Some(true) ==> LocationOf(node, before) != Header)
  }

  function Parsed(node: Node, before: Parameter): Parameter
    requires Fits(node, before) && node.name.Some? && node.requestPart.Some?
  {
    var location := LocationOf(node, before);
    Parameter(location, node.name.value, node.requestPart.value,
              if node.format.None? then before.format else FormatNamed(node.format.value).value,
              StyleOf(node).GetOr(if location == Path then Simple else Form),
              node.explode.GetOr(location == Query))
  }

  /** Whatever the entry was before. */
  lemma ParsedIsLegal(node: Node, before: Parameter)
    requires Fits(node, before) && node.name.Some? && node.requestPart.Some?
    ensures IsLegal(Parsed(node, before)) && Parsed(node, before).ident == node.name.value
  {
  }

  /** A parameter of which only its name and request part are said is an exploding query parameter of plain strings. */
  lemma NewParameter(name: string, part: string)
    ensures var node := Node(Some(name), Some(part), None, None, None, None);
      && Fits(node, Entry(map[], name))
      && Parsed(node, Entry(map[], name)) == Parameter(Query, name, part, StringFormat, Form, true)
  {
  }

  // ---- Writing values ----

  /** A string, an array or a dictionary, the last in the order of its keys. */
  datatype Value = One(text: string) | Many(elements: seq<string>) | Dict(pairs: seq<(string, string)>)

  function Entries(pairs: seq<(string, string)>, kvSeparator: string): seq<string> {
    seq(|pairs|, i requires 0 <= i < |pairs| => pairs[i].0 + kvSeparator + pairs[i].1)
  }

  function JoinMap(pairs: seq<(string, string)>, kvSeparator: string, pairSeparator: string): string {
    Join(Entries(pairs, kvSeparator), pairSeparator)
  }

  /** `None`: the style is not one for paths, and the parameter's default value is used. */
  function PathText(p: Parameter, v: Value): Option<string> {
    match v
    case One(text) =>
      (match p.style
       case Simple => Some(text)
       case Label => Some("." + text)
       case Matrix => Some(";" + p.ident + "=" + text)
       case Form => None)
    case Many(elements) =>
      (match p.style
       case Simple => Some(Join(elements, ","))
       case Label => if p.explode then Some("." + Join(elements, ".")) else Some("." + Join(elements, ","))
       case Matrix =>
         if p.explode then Some(";" + p.ident + "=" + Join(elements, ";" + p.ident + "="))
         else Some(";" + p.ident + "=" + Join(elements, ","))
       case Form => None)
    case Dict(pairs) =>
      (match p.style
       case Simple => if p.explode then Some(JoinMap(pairs, "=", ",")) else Some(JoinMap(pairs, ",", ","))
       case Label => if p.explode then Some("." + JoinMap(pairs, "=", ".")) else Some("." + JoinMap(pairs, ",", ","))
       case Matrix =>
         if p.explode then Some(";" + JoinMap(pairs, "=", ";"))
         else Some(";" + p.ident + "=" + JoinMap(pairs, ",", ","))
       case Form => None)
  }

  /** `None`: the style is not one for queries and headers, and nothing is sent. */
  function QueryOrHeaderPairs(p: Parameter, v: Value): Option<seq<(string, string)>> {
    if p.style != Form then None
    else
      match v
      case One(text) => Some([(p.ident, text)])
      case Many(elements) =>
        if p.explode then Some(seq(|elements|, i requires 0 <= i < |elements| => (p.ident, elements[i])))
        else Some([(p.ident, Join(elements, ","))])
      case Dict(pairs) => if p.explode then Some(pairs) else Some([(p.ident, JoinMap(pairs, ",", ","))])
  }

  /**
   * For a parameter as it is parsed the way of writing that belongs to its location never falls back, and
   * a single value is written like the array of it.
   */
  lemma NeverFallsBack(p: Parameter, v: Value)
    requires IsLegal(p)
    ensures p.location == Path ==> PathText(p, v).Some?
    ensures p.location != Path ==> QueryOrHeaderPairs(p, v).Some?
    ensures v.One? && p.location == Path ==> PathText(p, v) == PathText(p, Many([v.text]))
    ensures v.One? && p.location != Path ==> QueryOrHeaderPairs(p, v) == QueryOrHeaderPairs(p, Many([v.text]))
  {
    if v.One? && p.location != Path && p.explode {
      assert QueryOrHeaderPairs(p, Many([v.text])).value == [(p.ident, v.text)];
    }
  }

  /** A single value stands behind the prefix of its style, or in the only pair. */
  lemma SingleReadBack(p: Parameter, text: string)
    requires IsLegal(p)
    ensures p.location == Path ==> PathText(p, One(text)) == Some(Prefix(p) + text)
    ensures p.location != Path ==> QueryOrHeaderPairs(p, One(text)) == Some([(p.ident, text)])
  {
    assert "" + text == text;
  }

  // ---- Reading arrays back ----

  /** What stands in front of an array and between its elements. */
  function Prefix(p: Parameter): string {
    match p.style
    case Simple => ""
    case Label => "."
    case Matrix => ";" + p.ident + "="
    case Form => ""
  }

  function Separator(p: Parameter): (s: string)
    ensures s != ""
  {
    if p.style == Label && p.explode then "."
    else if p.style == Matrix && p.explode then ";" + p.ident + "="
    else ","
  }

  /** Splits where the first character of the separator occurs. */
  function SplitAt(text: string, separator: string): seq<string>
    requires separator != ""
    decreases |text|
  {
    var i := IndexOf(text, separator[0], 0);
    if i + |separator| > |text| then [text]
    else [text[..i]] + SplitAt(text[i + |separator|..], separator)
  }

  /** None of the elements contains the character by which the style separates them. */
  ghost predicate Separable(p: Parameter, elements: seq<string>) {
    forall e <- elements :: Separator(p)[0] !in e
  }

  lemma SplitAtFirst(e: string, separator: string, rest: string)
    requires separator != "" && separator[0] !in e
    ensures SplitAt(e + separator + rest, separator) == [e] + SplitAt(rest, separator)
  {
    var text := e + separator + rest;
    IndexOfUnique(text, separator[0], 0, |e|);
    assert text[..|e|] == e && text[|e| + |separator|..] == rest;
  }

  lemma SplitAtLast(e: string, separator: string)
    requires separator != "" && separator[0] !in e
    ensures SplitAt(e, separator) == [e]
  {
    IndexOfUnique(e, separator[0], 0, |e|);
  }

  lemma {:induction false} SplitJoined(elements: seq<string>, separator: string)
    requires elements != [] && separator != "" && forall e <- elements :: separator[0] !in e
    ensures SplitAt(Join(elements, separator), separator) == elements
  {
    if |elements| == 1 {
      SplitAtLast(elements[0], separator);
    } else {
      SplitJoined(elements[1..], separator);
      SplitAtFirst(elements[0], separator, Join(elements[1..], separator));
    }
  }

  /** The elements of an array in a path, for any style and with or without exploding. */
  function ReadPath(p: Parameter, text: string): seq<string>
    requires |Prefix(p)| <= |text|
  {
    SplitAt(text[|Prefix(p)|..], Separator(p))
  }

  lemma PathReadBack(p: Parameter, elements: seq<string>)
    requires IsLegal(p) && p.location == Path && Separable(p, elements)
    ensures var text := PathText(p, Many(elements)).value;
      |Prefix(p)| <= |text| && ReadPath(p, text) == if elements == [] then [""] else elements
  {
    var text, joined := PathText(p, Many(elements)).value, Join(elements, Separator(p));
    assert text == Prefix(p) + joined;
    assert text[|Prefix(p)|..] == joined;
    if elements == [] {
      SplitAtLast("", Separator(p));
    } else {
      SplitJoined(elements, Separator(p));
    }
  }

  /** The elements of an array among the pairs of a query or header. */
  function ReadPairs(p: Parameter, pairs: seq<(string, string)>): seq<string> {
    if p.explode then seq(|pairs|, i requires 0 <= i < |pairs| => pairs[i].1)
    else if |pairs| != 1 then [] else SplitAt(pairs[0].1, ",")
  }

  lemma PairsReadBack(p: Parameter, elements: seq<string>)
    requires IsLegal(p) && p.location != Path && (p.explode || Separable(p, elements))
    ensures var pairs := QueryOrHeaderPairs(p, Many(elements)).value;
      && ReadPairs(p, pairs) == (if elements == [] && !p.explode then [""] else elements)
      && forall pair <- pairs :: pair.0 == p.ident
  {
    if !p.explode {
      if elements == [] {
        SplitAtLast("", ",");
      } else {
        SplitJoined(elements, ",");
      }
    }
  }

  ghost predicate SameText(p: Parameter, a: seq<string>, b: seq<string>) {
    if p.location == Path then PathText(p, Many(a)) == PathText(p, Many(b))
    else QueryOrHeaderPairs(p, Many(a)) == QueryOrHeaderPairs(p, Many(b))
  }

  /**
   * Two arrays are written alike just when they are the same, or when both have no content and the
   * elements are joined: the empty array and the array of one empty string.
   */
  lemma WrittenAlike(p: Parameter, a: seq<string>, b: seq<string>)
    requires IsLegal(p) && Separable(p, a) && Separable(p, b)
    ensures SameText(p, a, b) <==> a == b || (a in [[], [""]] && b in [[], [""]] && (p.location == Path || !p.explode))
  {
    if p.location == Path {
      PathReadBack(p, a);
      PathReadBack(p, b);
    } else {
      PairsReadBack(p, a);
      PairsReadBack(p, b);
    }
  }

  // ---- Reading dictionaries back ----

  /** What stands in front of a dictionary; exploded in matrix style, its keys take the place of the name. */
  function DictPrefix(p: Parameter): string {
    if p.style == Matrix && p.explode then ";" else Prefix(p)
  }

  function DictSeparator(p: Parameter): char {
    if p.style == Label && p.explode then '.' else if p.style == Matrix && p.explode then ';' else ','
  }

  /** No key or value contains what the style puts between them. */
  ghost predicate DictSeparable(p: Parameter, pairs: seq<(string, string)>) {
    forall pair <- pairs ::
      DictSeparator(p) !in pair.0 && DictSeparator(p) !in pair.1 && (p.explode ==> '=' !in pair.0)
  }

  function CutEntry(entry: string): (string, string) {
    var i := IndexOf(entry, '=', 0);
    if i == |entry| then (entry, "") else (entry[..i], entry[i + 1..])
  }

  function CutEntries(entries: seq<string>): seq<(string, string)> {
    if entries == [] then [] else [CutEntry(entries[0])] + CutEntries(entries[1..])
  }

  /** Two by two. */
  function Paired(flat: seq<string>): seq<(string, string)> {
    if |flat| < 2 then [] else [(flat[0], flat[1])] + Paired(flat[2..])
  }

  function ReadDict(p: Parameter, text: string): seq<(string, string)> {
    if text == "" then []
    else if p.explode then CutEntries(Split(text, DictSeparator(p)))
    else Paired(Split(text, ','))
  }

  lemma EntriesFirst(pairs: seq<(string, string)>, kvSeparator: string)
    requires pairs != []
    ensures Entries(pairs, kvSeparator) == [pairs[0].0 + kvSeparator + pairs[0].1] + Entries(pairs[1..], kvSeparator)
  {
  }

  lemma CutWritten(key: string, value: string)
    requires '=' !in key
    ensures CutEntry(key + "=" + value) == (key, value)
  {
    var entry := key + "=" + value;
    IndexOfUnique(entry, '=', 0, |key|);
    assert entry[..|key|] == key && entry[|key| + 1..] == value;
  }

  lemma {:induction false} CutEntriesWritten(pairs: seq<(string, string)>)
    requires forall pair <- pairs :: '=' !in pair.0
    ensures CutEntries(Entries(pairs, "=")) == pairs
  {
    if pairs != [] {
      assert pairs[0] in pairs && forall pair <- pairs[1..] :: pair in pairs;
      EntriesFirst(pairs, "=");
      CutWritten(pairs[0].0, pairs[0].1);
      CutEntriesWritten(pairs[1..]);
      assert pairs == [pairs[0]] + pairs[1..];
    }
  }

  function Flat(pairs: seq<(string, string)>): seq<string> {
    if pairs == [] then [] else [pairs[0].0, pairs[0].1] + Flat(pairs[1..])
  }

  lemma {:induction false} PairedFlat(pairs: seq<(string, string)>)
    ensures Paired(Flat(pairs)) == pairs
  {
    if pairs != [] {
      assert Flat(pairs)[2..] == Flat(pairs[1..]);
      PairedFlat(pairs[1..]);
    }
  }

  lemma PairJoined(key: string, value: string, rest: seq<string>)
    ensures Join([key, value] + rest, ",")
         == if rest == [] then key + "," + value else (key + "," + value) + "," + Join(rest, ",")
  {
    var tail := [value] + rest;
    assert [key, value] + rest == [key] + tail;
    JoinMore(key, tail, ",");
    if rest != [] {
      JoinMore(value, rest, ",");
      assert key + "," + (value + "," + Join(rest, ",")) == (key + "," + value) + "," + Join(rest, ",");
    }
  }

  lemma {:induction false} JoinFlat(pairs: seq<(string, string)>)
    ensures Join(Flat(pairs), ",") == JoinMap(pairs, ",", ",")
  {
    if pairs != [] {
      var entry, rest := pairs[0].0 + "," + pairs[0].1, pairs[1..];
      EntriesFirst(pairs, ",");
      JoinFlat(rest);
      PairJoined(pairs[0].0, pairs[0].1, Flat(rest));
      if rest != [] {
        JoinMore(entry, Entries(rest, ","), ",");
      }
    }
  }

  lemma {:induction false} FlatHasNo(pairs: seq<(string, string)>, c: char)
    requires forall pair <- pairs :: c !in pair.0 && c !in pair.1
    ensures forall s <- Flat(pairs) :: c !in s
  {
    if pairs != [] {
      assert pairs[0] in pairs && forall pair <- pairs[1..] :: pair in pairs;
      FlatHasNo(pairs[1..], c);
    }
  }

  lemma JoinedNotEmpty(pairs: seq<(string, string)>, kvSeparator: string, pairSeparator: string)
    requires pairs != [] && kvSeparator != ""
    ensures JoinMap(pairs, kvSeparator, pairSeparator) != ""
  {
    EntriesFirst(pairs, kvSeparator);
  }

  lemma ExplodedReadBack(p: Parameter, pairs: seq<(string, string)>)
    requires p.explode && DictSeparable(p, pairs)
    ensures ReadDict(p, JoinMap(pairs, "=", [DictSeparator(p)])) == pairs
  {
    if pairs != [] {
      var entries, c := Entries(pairs, "="), DictSeparator(p);
      JoinedNotEmpty(pairs, "=", [c]);
      forall e | e in entries ensures c !in e {
        var i :| 0 <= i < |pairs| && e == pairs[i].0 + "=" + pairs[i].1;
        assert pairs[i] in pairs;
      }
      SplitJoin(entries, c);
      CutEntriesWritten(pairs);
    }
  }

  lemma JoinedReadBack(p: Parameter, pairs: seq<(string, string)>)
    requires !p.explode && DictSeparable(p, pairs)
    ensures ReadDict(p, JoinMap(pairs, ",", ",")) == pairs
  {
    if pairs != [] {
      JoinedNotEmpty(pairs, ",", ",");
      JoinFlat(pairs);
      FlatHasNo(pairs, ',');
      SplitJoin(Flat(pairs), ',');
      PairedFlat(pairs);
    }
  }

  /** The part of a written dictionary that holds its keys and values. */
  function DictText(p: Parameter, pairs: seq<(string, string)>): string {
    if p.explode then JoinMap(pairs, "=", [DictSeparator(p)]) else JoinMap(pairs, ",", ",")
  }

  /** A dictionary comes back from each style, exploded or not; an exploding query holds its very pairs. */
  lemma DictReadBack(p: Parameter, pairs: seq<(string, string)>)
    requires IsLegal(p) && (DictSeparable(p, pairs) || (p.location != Path && p.explode))
    ensures if p.location == Path then
        var text := PathText(p, Dict(pairs)).value;
        DictPrefix(p) <= text && ReadDict(p, text[|DictPrefix(p)|..]) == pairs
      else if p.explode then QueryOrHeaderPairs(p, Dict(pairs)) == Some(pairs)
      else
        var written := QueryOrHeaderPairs(p, Dict(pairs)).value;
        |written| == 1 && written[0].0 == p.ident && ReadDict(p, written[0].1) == pairs
  {
    if p.location == Path {
      var text := PathText(p, Dict(pairs)).value;
      assert text == DictPrefix(p) + DictText(p, pairs);
      assert text[|DictPrefix(p)|..] == DictText(p, pairs);
      if p.explode {
        ExplodedReadBack(p, pairs);
      } else {
        JoinedReadBack(p, pairs);
      }
    } else if !p.explode {
      JoinedReadBack(p, pairs);
    }
  }

  ghost predicate SameDict(p: Parameter, a: seq<(string, string)>, b: seq<(string, string)>) {
    if p.location == Path then PathText(p, Dict(a)) == PathText(p, Dict(b))
    else QueryOrHeaderPairs(p, Dict(a)) == QueryOrHeaderPairs(p, Dict(b))
  }

  /** So different dictionaries are written differently. */
  lemma DictsWrittenAlike(p: Parameter, a: seq<(string, string)>, b: seq<(string, string)>)
    requires IsLegal(p) && DictSeparable(p, a) && DictSeparable(p, b)
    ensures SameDict(p, a, b) <==> a == b
  {
    DictReadBack(p, a);
    DictReadBack(p, b);
  }
}
