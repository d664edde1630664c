/** Dotted paths to the fields of a compound type (`members` and `find_field` in `reflect.py`). */
module FieldPaths {
  import opened Text

  /** A type without fields has an empty list. */
  datatype TypeInfo = TypeInfo(fields: seq<Member>)

  datatype Member = Member(schemaName: string, propertyName: string, typeInfo: TypeInfo)

  // ---- Enumerating ----

  /** A member, told from others by the positions that lead to it, and the path it is yielded with. */
  datatype Item = Item(position: seq<nat>, path: string)

  function FieldName(prefix: string, name: string): string {
    (if prefix != "" then prefix + "." else "") + name
  }

  function Below(i: nat, items: seq<Item>): (r: seq<Item>)
    ensures |r| == |items|
    ensures forall k :: 0 <= k < |r| ==> r[k] == Item([i] + items[k].position, items[k].path)
  {
    if items == [] then [] else [Item([i] + items[0].position, items[0].path)] + Below(i, items[1..])
  }

  /** `members` with `recursive=True`, from field `i` on. */
  function MembersFrom(t: TypeInfo, i: nat, prefix: string): seq<Item>
    requires i <= |t.fields|
    decreases t, |t.fields| - i
  {
    if i == |t.fields| then []
    else
      var name := FieldName(prefix, t.fields[i].schemaName);
      [Item([i], name)] + Below(i, MembersFrom(t.fields[i].typeInfo, 0, name)) + MembersFrom(t, i + 1, prefix)
  }

  function Members(t: TypeInfo): seq<Item> {
    MembersFrom(t, 0, "")
  }

  // ---- Finding ----

  /** The first field of this name. */
  function FieldNamed(t: TypeInfo, name: string, i: nat): (r: Option<nat>)
    requires i <= |t.fields|
    ensures r.Some? ==> r.value < |t.fields| && t.fields[r.value].schemaName == name
    decreases |t.fields| - i
  {
    if i == |t.fields| then None
    else if t.fields[i].schemaName == name then Some(i)
    else FieldNamed(t, name, i + 1)
  }

  datatype Found = Found(pyPath: string, position: seq<nat>)

  function Deeper(i: nat, f: Option<Found>): Option<Found> {
    if f.None? then None else Some(Found(f.value.pyPath, [i] + f.value.position))
  }

  function FindField(t: TypeInfo, field: string, offset: nat, pyPath: string): Option<Found>
    requires offset <= |field|
    decreases t
  {
    var nextDot := IndexOf(field, '.', offset);
    var i := FieldNamed(t, field[offset..nextDot], 0);
    if i.None? then None
    else
      var member := t.fields[i.value];
      var longer := pyPath + (if offset > 0 then "." else "") + member.propertyName;
      if nextDot == |field| then Some(Found(longer, [i.value]))
      else Deeper(i.value, FindField(member.typeInfo, field, nextDot + 1, longer))
  }

  // ---- Positions and their names ----

  predicate IsPosition(t: TypeInfo, p: seq<nat>)
    decreases |p|
  {
    p != [] && p[0] < |t.fields| && (|p| == 1 || IsPosition(t.fields[p[0]].typeInfo, p[1..]))
  }

  function Names(t: TypeInfo, p: seq<nat>): (r: seq<string>)
    requires IsPosition(t, p)
    ensures |r| == |p|
    decreases |p|
  {
    var m := t.fields[p[0]];
    [m.schemaName] + if |p| == 1 then [] else Names(m.typeInfo, p[1..])
  }

  function Properties(t: TypeInfo, p: seq<nat>): (r: seq<string>)
    requires IsPosition(t, p)
    ensures |r| == |p|
    decreases |p|
  {
    var m := t.fields[p[0]];
    [m.propertyName] + if |p| == 1 then [] else Properties(m.typeInfo, p[1..])
  }

  /** No name has a dot in it, and no two fields of a type have the same name. */
  predicate WellNamed(t: TypeInfo)
    decreases t
  {
    && (forall i :: 0 <= i < |t.fields| ==> '.' !in t.fields[i].schemaName && WellNamed(t.fields[i].typeInfo))
    && (forall i, j :: 0 <= i < j < |t.fields| ==> t.fields[i].schemaName != t.fields[j].schemaName)
  }

  /** A nameless top-level field with fields of its own, whose paths would start with nothing. */
  predicate HasNamelessParent(t: TypeInfo) {
    exists i :: 0 <= i < |t.fields| && t.fields[i].schemaName == "" && t.fields[i].typeInfo.fields != []
  }

  // ---- What is enumerated ----

  function PathFrom(prefix: string, names: seq<string>): string
    decreases |names|
  {
    if names == [] then prefix else PathFrom(FieldName(prefix, names[0]), names[1..])
  }

  lemma {:induction false} InMembersFrom(t: TypeInfo, i: nat, prefix: string, p: seq<nat>, path: string)
    requires i <= |t.fields|
    ensures Item(p, path) in MembersFrom(t, i, prefix)
       <==> IsPosition(t, p) && i <= p[0] && path == PathFrom(prefix, Names(t, p))
    decreases t, |t.fields| - i
  {
    if i < |t.fields| {
      var m := t.fields[i];
      var name := FieldName(prefix, m.schemaName);
      var below := MembersFrom(m.typeInfo, 0, name);
      InMembersFrom(t, i + 1, prefix, p, path);
      InBelow(i, below, p, path);
      if p == [] {
      } else if p[0] != i {
        assert Item(p, path) != Item([i], name);
      } else if |p| == 1 {
        assert p == [i] && p[1..] == [];
        InMembersFrom(m.typeInfo, 0, name, p[1..], path);
        assert Names(t, p) == [m.schemaName];
        assert PathFrom(prefix, [m.schemaName]) == PathFrom(name, []);
      } else {
        InMembersFrom(m.typeInfo, 0, name, p[1..], path);
        if IsPosition(t, p) {
          assert Names(t, p)[1..] == Names(m.typeInfo, p[1..]);
        }
      }
    }
  }

  lemma InBelow(i: nat, items: seq<Item>, p: seq<nat>, path: string)
    ensures Item(p, path) in Below(i, items) <==> p != [] && p[0] == i && Item(p[1..], path) in items
  {
    if Item(p, path) in Below(i, items) {
      var k :| 0 <= k < |items| && Below(i, items)[k] == Item(p, path);
      assert p == [i] + items[k].position && p[1..] == items[k].position;
    }
    if p != [] && p[0] == i && Item(p[1..], path) in items {
      var k :| 0 <= k < |items| && items[k] == Item(p[1..], path);
      assert Below(i, items)[k] == Item([i] + p[1..], path) && [i] + p[1..] == p;
    }
  }

  // ---- What is found ----

  /** Following names from field to field. */
  function Walk(t: TypeInfo, names: seq<string>): Option<seq<nat>>
    requires names != []
    decreases |names|
  {
    var i := FieldNamed(t, names[0], 0);
    if i.None? then None
    else if |names| == 1 then Some([i.value])
    else
      var rest := Walk(t.fields[i.value].typeInfo, names[1..]);
      if rest.None? then None else Some([i.value] + rest.value)
  }

  lemma {:induction false} WalkNames(t: TypeInfo, names: seq<string>)
    requires names != [] && Walk(t, names).Some?
    ensures IsPosition(t, Walk(t, names).value) && Names(t, Walk(t, names).value) == names
    decreases |names|
  {
    var i := FieldNamed(t, names[0], 0);
    if |names| > 1 {
      WalkNames(t.fields[i.value].typeInfo, names[1..]);
      var rest := Walk(t.fields[i.value].typeInfo, names[1..]).value;
      assert ([i.value] + rest)[1..] == rest;
    }
  }

  lemma {:induction false} FieldNamedFirst(t: TypeInfo, from: nat, i: nat)
    requires from <= i < |t.fields|
    requires forall k :: from <= k < i ==> t.fields[k].schemaName != t.fields[i].schemaName
    ensures FieldNamed(t, t.fields[i].schemaName, from) == Some(i)
    decreases i - from
  {
    if from < i {
      FieldNamedFirst(t, from + 1, i);
    }
  }

  lemma {:induction false} NamesWalk(t: TypeInfo, p: seq<nat>)
    requires WellNamed(t) && IsPosition(t, p)
    ensures Walk(t, Names(t, p)) == Some(p)
    decreases |p|
  {
    FieldNamedFirst(t, 0, p[0]);
    if |p| == 1 {
      assert p == [p[0]];
    } else {
      NamesWalk(t.fields[p[0]].typeInfo, p[1..]);
      assert Names(t, p)[1..] == Names(t.fields[p[0]].typeInfo, p[1..]);
      assert [p[0]] + p[1..] == p;
    }
  }

  /** From the offset on, the field path consists of these names. */
  predicate Spells(field: string, offset: nat, names: seq<string>)
    requires offset <= |field|
    decreases |names|
  {
    var dot := IndexOf(field, '.', offset);
    && names != [] && names[0] == field[offset..dot]
    && (if dot == |field| then |names| == 1 else |names| > 1 && Spells(field, dot + 1, names[1..]))
  }

  lemma {:induction false} SplitSpells(field: string, offset: nat)
    requires offset <= |field|
    ensures Spells(field, offset, Split(field[offset..], '.'))
    decreases |field| - offset
  {
    var dot := IndexOf(field, '.', offset);
    if dot < |field| {
      SplitFrom(field, '.', offset);
      SplitSpells(field, dot + 1);
    } else {
      SplitLast(field, '.', offset);
      assert field[offset..dot] == field[offset..];
    }
  }

  lemma PropertiesBelow(t: TypeInfo, i: nat, rest: seq<nat>)
    requires i < |t.fields| && IsPosition(t.fields[i].typeInfo, rest)
    ensures IsPosition(t, [i] + rest)
    ensures Join(Properties(t, [i] + rest), ".")
         == t.fields[i].propertyName + "." + Join(Properties(t.fields[i].typeInfo, rest), ".")
  {
    var p := [i] + rest;
    assert p[1..] == rest;
    assert Properties(t, p)[1..] == Properties(t.fields[i].typeInfo, rest);
  }

  /** `find_field` walks along the names in the path. */
  lemma {:induction false} FindWalks(t: TypeInfo, field: string, offset: nat, pyPath: string, names: seq<string>)
    requires offset <= |field| && Spells(field, offset, names)
    ensures FoundAt(FindField(t, field, offset, pyPath)) == Walk(t, names)
    decreases t
  {
    var dot := IndexOf(field, '.', offset);
    var i := FieldNamed(t, names[0], 0);
    if i.Some? && dot < |field| {
      var m := t.fields[i.value];
      var longer := pyPath + (if offset > 0 then "." else "") + m.propertyName;
      FindWalks(m.typeInfo, field, dot + 1, longer, names[1..]);
    }
  }

  function FoundAt(found: Option<Found>): Option<seq<nat>> {
    if found.None? then None else Some(found.value.position)
  }

  lemma WholeFieldWalks(t: TypeInfo, field: string)
    ensures FoundAt(FindField(t, field, 0, "")) == Walk(t, Split(field, '.'))
  {
    assert field[0..] == field;
    SplitSpells(field, 0);
    FindWalks(t, field, 0, "", Split(field, '.'));
  }

  lemma RegroupPath(pyPath: string, dot: string, property: string, deeper: string)
    ensures (pyPath + dot + property) + "." + deeper == pyPath + dot + (property + "." + deeper)
  {
  }

  /** On the way it joins the properties it comes by. */
  lemma {:induction false} FindJoins(t: TypeInfo, field: string, offset: nat, pyPath: string)
    requires offset <= |field| && FindField(t, field, offset, pyPath).Some?
    ensures var found := FindField(t, field, offset, pyPath).value;
      && IsPosition(t, found.position)
      && found.pyPath == pyPath + (if offset > 0 then "." else "") + Join(Properties(t, found.position), ".")
    decreases t
  {
    var nextDot := IndexOf(field, '.', offset);
    var i := FieldNamed(t, field[offset..nextDot], 0).value;
    if nextDot < |field| {
      var m := t.fields[i];
      var dot := if offset > 0 then "." else "";
      var longer := pyPath + dot + m.propertyName;
      FindJoins(m.typeInfo, field, nextDot + 1, longer);
      var rest := FindField(m.typeInfo, field, nextDot + 1, longer).value.position;
      PropertiesBelow(t, i, rest);
      RegroupPath(pyPath, dot, m.propertyName, Join(Properties(m.typeInfo, rest), "."));
    }
  }

  // ---- The paths as joined names ----

  lemma {:induction false} PathJoined(prefix: string, names: seq<string>)
    requires prefix != "" && names != []
    ensures PathFrom(prefix, names) == prefix + "." + Join(names, ".")
    decreases |names|
  {
    var longer := FieldName(prefix, names[0]);
    if |names| == 1 {
      assert PathFrom(longer, names[1..]) == longer;
    } else {
      PathJoined(longer, names[1..]);
    }
  }

  lemma PathIsJoined(t: TypeInfo, p: seq<nat>)
    requires IsPosition(t, p) && !HasNamelessParent(t)
    ensures PathFrom("", Names(t, p)) == Join(Names(t, p), ".")
  {
    var names := Names(t, p);
    assert FieldName("", names[0]) == names[0];
    if |names| > 1 {
      assert t.fields[p[0]].typeInfo.fields != [];
      PathJoined(names[0], names[1..]);
    } else {
      assert names[1..] == [];
    }
  }

  lemma {:induction false} NamesDotFree(t: TypeInfo, p: seq<nat>)
    requires WellNamed(t) && IsPosition(t, p)
    ensures forall name <- Names(t, p) :: '.' !in name
    decreases |p|
  {
    if |p| > 1 {
      NamesDotFree(t.fields[p[0]].typeInfo, p[1..]);
    }
  }

  // ---- Enumeration and lookup agree ----

  /** A path is yielded for a position just when looking it up leads to that position. */
  ghost predicate Agree(t: TypeInfo) {
    forall p, field :: Item(p, field) in Members(t) <==> Leads(t, field, p)
  }

  predicate Leads(t: TypeInfo, field: string, p: seq<nat>) {
    var found := FindField(t, field, 0, "");
    found.Some? && found.value.position == p
  }

  lemma YieldedLeads(t: TypeInfo, p: seq<nat>, field: string)
    requires WellNamed(t) && !HasNamelessParent(t) && Item(p, field) in Members(t)
    ensures Leads(t, field, p)
  {
    InMembersFrom(t, 0, "", p, field);
    PathIsJoined(t, p);
    NamesDotFree(t, p);
    SplitJoin(Names(t, p), '.');
    NamesWalk(t, p);
    WholeFieldWalks(t, field);
  }

  lemma LeadsYielded(t: TypeInfo, p: seq<nat>, field: string)
    requires !HasNamelessParent(t) && Leads(t, field, p)
    ensures Item(p, field) in Members(t)
  {
    WholeFieldWalks(t, field);
    WalkNames(t, Split(field, '.'));
    JoinSplit(field, '.');
    PathIsJoined(t, p);
    InMembersFrom(t, 0, "", p, field);
  }

  /** What a lookup reports besides is the path of the Python properties. */
  lemma PyPathIsProperties(t: TypeInfo, field: string)
    requires FindField(t, field, 0, "").Some?
    ensures var f := FindField(t, field, 0, "").value;
      IsPosition(t, f.position) && f.pyPath == Join(Properties(t, f.position), ".")
  {
    FindJoins(t, field, 0, "");
  }

  lemma NamelessParentDisagrees(t: TypeInfo)
    requires HasNamelessParent(t) && WellNamed(t)
    ensures !Agree(t)
  {
    var i :| 0 <= i < |t.fields| && t.fields[i].schemaName == "" && t.fields[i].typeInfo.fields != [];
    var m := t.fields[i].typeInfo;
    var p, child := [i, 0], m.fields[0].schemaName;
    assert p[1..] == [0];
    assert IsPosition(m, [0]) && IsPosition(t, p);
    assert Names(t, p) == ["", child];
    PathOfChild(child);
    InMembersFrom(t, 0, "", p, child);
    assert '.' !in child;
    SplitNone(child, '.');
    WholeFieldWalks(t, child);
    assert !Leads(t, child, p);
  }

  lemma PathOfChild(child: string)
    ensures PathFrom("", ["", child]) == child
  {
    assert ["", child][1..] == [child] && [child][1..] == [];
    assert PathFrom("", [child]) == PathFrom(child, []);
  }

  /** For well-named types the two agree exactly when no nameless top-level field has fields. */
  lemma AgreeExactly(t: TypeInfo)
    requires WellNamed(t)
    ensures Agree(t) <==> !HasNamelessParent(t)
  {
    if HasNamelessParent(t) {
      NamelessParentDisagrees(t);
    } else {
      forall p, field ensures Item(p, field) in Members(t) <==> Leads(t, field, p) {
        if Item(p, field) in Members(t) {
          YieldedLeads(t, p, field);
        }
        if Leads(t, field, p) {
          LeadsYielded(t, p, field);
        }
      }
    }
  }
}
