/** The symbol registry: every message of every file under its dotted name, and field paths resolved in it. */
module Registry {
  import opened Text

  datatype FieldDescriptor = FieldDescriptor(
    name: Option<string>, fieldLabel: Option<int>, typeName: Option<string>, fieldType: Option<int>)

  datatype Descriptor = Descriptor(name: Option<string>, fields: seq<FieldDescriptor>, nested: seq<Descriptor>)

  datatype File = File(package: Option<string>, messages: seq<Descriptor>)

  datatype FieldDocs = FieldDocs(fieldLabel: Option<int>, typeName: Option<string>, fieldType: Option<int>)

  datatype MessageDocs = MessageDocs(fields: map<string, FieldDocs>)

  function OrEmpty(s: Option<string>): string
  {
    if s.Some? then s.value else ""
  }

  // ----- what a file declares -----

  function FullName(scope: string, m: Descriptor): string
  {
    scope + "." + OrEmpty(m.name)
  }

  function Scope(file: File): string
  {
    var package := OrEmpty(file.package);
    if package == "" then "" else "." + package
  }

  /** The fields of a message by name, the last of equal names staying. */
  function FieldTable(fields: seq<FieldDescriptor>): map<string, FieldDocs>
  {
    if fields == [] then map[]
    else
      var last := fields[|fields| - 1];
      var docs := FieldDocs(last.fieldLabel, last.typeName, last.fieldType);
      FieldTable(fields[..|fields| - 1])[OrEmpty(last.name) := docs]
  }

  function DocsOf(m: Descriptor): MessageDocs
  {
    MessageDocs(FieldTable(m.fields))
  }

  datatype Named = Named(name: string, message: Descriptor)

  /** The message at the end of a path of nesting indexes, with its dotted name. */
  function At(messages: seq<Descriptor>, scope: string, path: seq<nat>): Option<Named>
    decreases |path|
  {
    if path == [] || path[0] >= |messages| then None
    else
      var m := messages[path[0]];
      if |path| == 1 then Some(Named(FullName(scope, m), m)) else At(m.nested, FullName(scope, m), path[1..])
  }

  /** Some file declares this message, at some depth, under this name. */
  ghost predicate Declares(files: seq<File>, name: string, m: Descriptor)
  {
    exists i: nat, path :: i < |files| && At(files[i].messages, Scope(files[i]), path) == Some(Named(name, m))
  }

  /** No two messages of one name differ in their fields; distinct full names are the usual case. */
  ghost predicate Consistent(files: seq<File>)
  {
    forall name, m, m' :: Declares(files, name, m) && Declares(files, name, m') ==> DocsOf(m) == DocsOf(m')
  }

  // ----- the same, read off the descriptors -----

  /** A name as a descriptor gives it; a missing one counts as empty. */
  predicate Gives(given: Option<string>, name: string)
  {
    given == Some(name) || (given == None && name == "")
  }

  /** Each message of the chain is nested in the one before. */
  ghost predicate Nests(messages: seq<Descriptor>, chain: seq<Descriptor>)
    decreases |chain|
  {
    chain != [] && chain[0] in messages && (|chain| > 1 ==> Nests(chain[0].nested, chain[1..]))
  }

  ghost predicate Spelled(chain: seq<Descriptor>, names: seq<string>)
  {
    |names| == |chain| && forall i :: 0 <= i < |chain| ==> Gives(chain[i].name, names[i])
  }

  /** The messages from the top of the file down to m, and their names. */
  ghost predicate Leads(messages: seq<Descriptor>, m: Descriptor, chain: seq<Descriptor>, names: seq<string>)
  {
    Nests(messages, chain) && chain[|chain| - 1] == m && Spelled(chain, names)
  }

  lemma AtLeads(messages: seq<Descriptor>, scope: string, path: seq<nat>)
    returns (chain: seq<Descriptor>, names: seq<string>)
    requires At(messages, scope, path).Some?
    ensures var named := At(messages, scope, path).value;
            Leads(messages, named.message, chain, names) && named.name == scope + "." + Join(names, '.')
    decreases |path|
  {
    var m := messages[path[0]];
    var name := OrEmpty(m.name);
    if |path| == 1 {
      chain, names := [m], [name];
    } else {
      var rest, later := AtLeads(m.nested, FullName(scope, m), path[1..]);
      chain, names := [m] + rest, [name] + later;
      assert chain[1..] == rest && names[1..] == later;
      JoinConcat([name], later, '.');
      assert scope + "." + name + "." + Join(later, '.') == scope + "." + (name + ['.'] + Join(later, '.'));
    }
  }

  lemma LeadsAt(messages: seq<Descriptor>, scope: string, m: Descriptor, chain: seq<Descriptor>,
      names: seq<string>) returns (path: seq<nat>)
    requires Leads(messages, m, chain, names)
    ensures At(messages, scope, path) == Some(Named(scope + "." + Join(names, '.'), m))
    decreases |chain|
  {
    var first :| 0 <= first < |messages| && messages[first] == chain[0];
    assert Gives(chain[0].name, names[0]);
    if |chain| == 1 {
      path := [first];
    } else {
      var inner, rest, later := FullName(scope, chain[0]), chain[1..], names[1..];
      assert Spelled(rest, later) by {
        forall i | 0 <= i < |rest| ensures Gives(rest[i].name, later[i]) {
          assert Gives(chain[i + 1].name, names[i + 1]);
        }
      }
      var deeper := LeadsAt(chain[0].nested, inner, m, rest, later);
      path := [first] + deeper;
      assert path[1..] == deeper && names == [names[0]] + later;
      JoinConcat([names[0]], later, '.');
      assert inner + "." + Join(later, '.') == scope + "." + (names[0] + ['.'] + Join(later, '.'));
    }
  }

  /** The package as a part of a dotted name, if the file has one. */
  function PackageParts(file: File): seq<string>
  {
    match file.package
    case Some(package) => if package == "" then [] else [package]
    case None => []
  }

  lemma {:induction false} ScopedName(file: File, names: seq<string>)
    requires names != []
    ensures Scope(file) + "." + Join(names, '.') == "." + Join(PackageParts(file) + names, '.')
  {
    if PackageParts(file) == [] {
      assert PackageParts(file) + names == names;
    } else {
      JoinConcat(PackageParts(file), names, '.');
    }
  }

  ghost predicate DeclaredIn(file: File, name: string, m: Descriptor, chain: seq<Descriptor>, names: seq<string>)
  {
    Leads(file.messages, m, chain, names) && name == "." + Join(PackageParts(file) + names, '.')
  }

  /** A message is declared under a dot, its package if there is one, and the names on its nesting path, dotted. */
  lemma DeclaresExactly(files: seq<File>, name: string, m: Descriptor)
    ensures Declares(files, name, m) <==>
            exists i: nat, chain, names :: i < |files| && DeclaredIn(files[i], name, m, chain, names)
  {
    hide Scope, PackageParts, Join, At, Leads;
    if Declares(files, name, m) {
      var i: nat, path :| i < |files| && At(files[i].messages, Scope(files[i]), path) == Some(Named(name, m));
      var chain, names := AtLeads(files[i].messages, Scope(files[i]), path);
      LeadsSome(files[i].messages, m, chain, names);
      ScopedName(files[i], names);
      assert DeclaredIn(files[i], name, m, chain, names);
    }
    if i: nat, chain, names :| i < |files| && DeclaredIn(files[i], name, m, chain, names) {
      LeadsSome(files[i].messages, m, chain, names);
      ScopedName(files[i], names);
      var path := LeadsAt(files[i].messages, Scope(files[i]), m, chain, names);
    }
  }

  lemma LeadsSome(messages: seq<Descriptor>, m: Descriptor, chain: seq<Descriptor>, names: seq<string>)
    requires Leads(messages, m, chain, names)
    ensures names != []
  {
  }

  /** No later field of the message has this one's name. */
  ghost predicate LastNamed(fields: seq<FieldDescriptor>, i: nat, name: string)
  {
    i < |fields| && Gives(fields[i].name, name) && forall j :: i < j < |fields| ==> !Gives(fields[j].name, name)
  }

  /** The entry of every field has that field's own label, type name and type, and nothing else has an entry. */
  ghost predicate HoldsFields(fields: map<string, FieldDocs>, m: Descriptor)
  {
    && (forall i: nat, name :: LastNamed(m.fields, i, name) ==>
          && name in fields
          && fields[name].fieldLabel == m.fields[i].fieldLabel
          && fields[name].typeName == m.fields[i].typeName
          && fields[name].fieldType == m.fields[i].fieldType)
    && (forall name :: name in fields <==> exists i :: 0 <= i < |m.fields| && Gives(m.fields[i].name, name))
  }

  lemma FieldsHeld(m: Descriptor)
    ensures HoldsFields(FieldTable(m.fields), m)
    decreases |m.fields|
  {
    if m.fields != [] {
      var n := |m.fields| - 1;
      var before := m.(fields := m.fields[..n]);
      FieldsHeld(before);
      var table, after := FieldTable(before.fields), FieldTable(m.fields);
      forall i: nat, name | LastNamed(m.fields, i, name)
        ensures name in after && after[name].fieldLabel == m.fields[i].fieldLabel
        ensures after[name].typeName == m.fields[i].typeName && after[name].fieldType == m.fields[i].fieldType
      {
        if i < n { assert LastNamed(before.fields, i, name); }
      }
      forall name ensures name in after <==> exists i :: 0 <= i < |m.fields| && Gives(m.fields[i].name, name) {
        if i :| 0 <= i < |m.fields| && Gives(m.fields[i].name, name) {
          if i < n { assert Gives(before.fields[i].name, name); }
        }
        if name in table {
          var i :| 0 <= i < n && Gives(before.fields[i].name, name);
          assert Gives(m.fields[i].name, name);
        }
        if name == OrEmpty(m.fields[n].name) { assert Gives(m.fields[n].name, name); }
      }
    }
  }

  // ----- the order of insertion -----

  datatype Insertion = Insertion(name: string, docs: MessageDocs)

  function Insertions(messages: seq<Descriptor>, scope: string): seq<Insertion>
  {
    if messages == [] then []
    else
      var m := messages[0];
      var name := FullName(scope, m);
      [Insertion(name, DocsOf(m))] + Insertions(m.nested, name) + Insertions(messages[1..], scope)
  }

  function FilesInsertions(files: seq<File>): seq<Insertion>
  {
    if files == [] then [] else Insertions(files[0].messages, Scope(files[0])) + FilesInsertions(files[1..])
  }

  function InsertAll(table: map<string, MessageDocs>, insertions: seq<Insertion>): map<string, MessageDocs>
    decreases |insertions|
  {
    if insertions == [] then table
    else InsertAll(table[insertions[0].name := insertions[0].docs], insertions[1..])
  }

  lemma {:induction false} InsertAppend(table: map<string, MessageDocs>, a: seq<Insertion>, b: seq<Insertion>)
    ensures InsertAll(table, a + b) == InsertAll(InsertAll(table, a), b)
    decreases |a|
  {
    if a == [] {
      assert a + b == b;
    } else {
      assert (a + b)[1..] == a[1..] + b;
      InsertAppend(table[a[0].name := a[0].docs], a[1..], b);
    }
  }

  /** Where no two insertions disagree, the table holds exactly them. */
  lemma {:induction false} InsertHolds(table: map<string, MessageDocs>, insertions: seq<Insertion>, name: string)
    requires forall x <- insertions, y <- insertions :: x.name == y.name ==> x.docs == y.docs
    ensures var after := InsertAll(table, insertions);
            && (forall x <- insertions :: x.name == name ==> name in after && after[name] == x.docs)
            && ((forall x <- insertions :: x.name != name) ==>
                  (name in after <==> name in table) && (name in table ==> after[name] == table[name]))
    decreases |insertions|
  {
    if insertions != [] {
      var first, rest := insertions[0], insertions[1..];
      assert forall x <- rest :: x in insertions;
      assert forall x <- insertions :: x == first || x in rest;
      InsertHolds(table[first.name := first.docs], rest, name);
    }
  }

  /** Of several insertions of one name the last one stays. */
  lemma {:induction false} LastInsertionStays(table: map<string, MessageDocs>, insertions: seq<Insertion>, i: nat)
    requires i < |insertions| && forall j :: i < j < |insertions| ==> insertions[j].name != insertions[i].name
    ensures var after := InsertAll(table, insertions);
            insertions[i].name in after && after[insertions[i].name] == insertions[i].docs
    decreases |insertions|
  {
    var first, rest := insertions[0], insertions[1..];
    if i > 0 {
      LastInsertionStays(table[first.name := first.docs], rest, i - 1);
    } else {
      assert forall x <- rest :: x.name != first.name;
      Untouched(table[first.name := first.docs], rest, first.name);
    }
  }

  lemma {:induction false} Untouched(table: map<string, MessageDocs>, insertions: seq<Insertion>, name: string)
    requires name in table && forall x <- insertions :: x.name != name
    ensures name in InsertAll(table, insertions) && InsertAll(table, insertions)[name] == table[name]
    decreases |insertions|
  {
    if insertions != [] {
      var first, rest := insertions[0], insertions[1..];
      assert first in insertions && forall x <- rest :: x in insertions;
      Untouched(table[first.name := first.docs], rest, name);
    }
  }

  // ----- completeness -----

  lemma {:induction false} InsertedAt(messages: seq<Descriptor>, scope: string, path: seq<nat>)
    requires At(messages, scope, path).Some?
    ensures var named := At(messages, scope, path).value;
            Insertion(named.name, DocsOf(named.message)) in Insertions(messages, scope)
    decreases |path|, |messages|
  {
    var m := messages[0];
    var name := FullName(scope, m);
    var inner, later := Insertions(m.nested, name), Insertions(messages[1..], scope);
    assert forall x <- inner :: x in Insertions(messages, scope);
    assert forall x <- later :: x in Insertions(messages, scope);
    if path[0] == 0 {
      if |path| > 1 { InsertedAt(m.nested, name, path[1..]); }
    } else {
      assert At(messages, scope, path) == At(messages[1..], scope, [path[0] - 1] + path[1..]) by {
        assert ([path[0] - 1] + path[1..])[1..] == path[1..];
      }
      InsertedAt(messages[1..], scope, [path[0] - 1] + path[1..]);
    }
  }

  lemma InsertionDeclared(messages: seq<Descriptor>, scope: string, x: Insertion)
    returns (path: seq<nat>, m: Descriptor)
    requires x in Insertions(messages, scope)
    ensures At(messages, scope, path) == Some(Named(x.name, m)) && x.docs == DocsOf(m)
  {
    var first := messages[0];
    var name := FullName(scope, first);
    if x == Insertion(name, DocsOf(first)) {
      path, m := [0], first;
    } else if x in Insertions(first.nested, name) {
      var inner;
      inner, m := InsertionDeclared(first.nested, name, x);
      path := [0] + inner;
      assert path[1..] == inner;
    } else {
      var later;
      later, m := InsertionDeclared(messages[1..], scope, x);
      path := [later[0] + 1] + later[1..];
      assert path[1..] == later[1..];
    }
  }

  lemma {:induction false} FileInsertion(files: seq<File>, x: Insertion)
    ensures x in FilesInsertions(files) <==>
            exists i: nat :: i < |files| && x in Insertions(files[i].messages, Scope(files[i]))
  {
    if files != [] {
      FileInsertion(files[1..], x);
      if i: nat :| i < |files| && x in Insertions(files[i].messages, Scope(files[i])) {
        if i > 0 { assert files[i] == files[1..][i - 1]; }
      }
      if x in FilesInsertions(files[1..]) {
        var i: nat :| i < |files[1..]| && x in Insertions(files[1..][i].messages, Scope(files[1..][i]));
        assert files[i + 1] == files[1..][i];
      }
    }
  }

  /** What gets inserted is what some file declares. */
  lemma {:induction false} InsertedIffDeclared(files: seq<File>, x: Insertion)
    ensures x in FilesInsertions(files) <==> exists m :: Declares(files, x.name, m) && x.docs == DocsOf(m)
  {
    FileInsertion(files, x);
    if x in FilesInsertions(files) {
      var i: nat :| i < |files| && x in Insertions(files[i].messages, Scope(files[i]));
      var path, m := InsertionDeclared(files[i].messages, Scope(files[i]), x);
      assert Declares(files, x.name, m);
    }
    if m :| Declares(files, x.name, m) && x.docs == DocsOf(m) {
      var i: nat, path :| i < |files| && At(files[i].messages, Scope(files[i]), path) == Some(Named(x.name, m));
      InsertedAt(files[i].messages, Scope(files[i]), path);
    }
  }

  /** Completeness: every message of every file, however deep, is stored under its dotted name; nothing else is. */
  lemma {:induction false} RegistryComplete(files: seq<File>, name: string)
    requires Consistent(files)
    ensures var table := InsertAll(map[], FilesInsertions(files));
            && (name in table <==> exists m :: Declares(files, name, m))
            && (forall m :: Declares(files, name, m) ==>
                  table[name] == DocsOf(m) && HoldsFields(table[name].fields, m))
  {
    hide HoldsFields, FieldTable;
    forall m: Descriptor ensures HoldsFields(FieldTable(m.fields), m) { FieldsHeld(m); }
    var insertions := FilesInsertions(files);
    forall x, y | x in insertions && y in insertions && x.name == y.name ensures x.docs == y.docs {
      InsertedIffDeclared(files, x);
      InsertedIffDeclared(files, y);
    }
    InsertHolds(map[], insertions, name);
    forall m | Declares(files, name, m) ensures Insertion(name, DocsOf(m)) in insertions {
      InsertedIffDeclared(files, Insertion(name, DocsOf(m)));
    }
    if x :| x in insertions && x.name == name {
      InsertedIffDeclared(files, x);
    }
  }

  /** The registry does not depend on the order in which the generator's hash map yields the files. */
  lemma {:induction false} RegistryOrderFree(files: seq<File>, files': seq<File>)
    requires Consistent(files) && forall f :: f in files <==> f in files'
    ensures InsertAll(map[], FilesInsertions(files)) == InsertAll(map[], FilesInsertions(files'))
  {
    forall name, m ensures Declares(files, name, m) <==> Declares(files', name, m) {
      SameDeclarations(files, files', name, m);
      SameDeclarations(files', files, name, m);
    }
    var table, table' := InsertAll(map[], FilesInsertions(files)), InsertAll(map[], FilesInsertions(files'));
    forall name ensures (name in table <==> name in table') && (name in table ==> table[name] == table'[name]) {
      RegistryComplete(files, name);
      RegistryComplete(files', name);
    }
  }

  lemma SameDeclarations(files: seq<File>, files': seq<File>, name: string, m: Descriptor)
    requires forall f <- files :: f in files'
    ensures Declares(files, name, m) ==> Declares(files', name, m)
  {
    if Declares(files, name, m) {
      var i: nat, path :| i < |files| && At(files[i].messages, Scope(files[i]), path) == Some(Named(name, m));
      assert files[i] in files';
      var k: nat :| k < |files'| && files'[k] == files[i];
    }
  }

  // ----- field paths -----

  function Resolve(messages: map<string, MessageDocs>, typeName: string, parts: seq<string>): Option<FieldDocs>
    requires parts != []
    decreases |parts|
  {
    if typeName !in messages || parts[0] !in messages[typeName].fields then None
    else
      var field := messages[typeName].fields[parts[0]];
      if |parts| == 1 then Some(field)
      else if field.typeName.None? then None
      else Resolve(messages, field.typeName.value, parts[1..])
  }

  /** One part: the field of that name in the type's own entry. */
  lemma {:induction false} ResolveOne(messages: map<string, MessageDocs>, root: string, name: string)
    requires '.' !in name
    ensures Resolve(messages, root, Split(name, '.')) ==
            if root in messages && name in messages[root].fields then Some(messages[root].fields[name]) else None
  {
    SplitFree(name, '.');
  }

  lemma {:induction false} ResolveAppend(messages: map<string, MessageDocs>, root: string, a: seq<string>,
      b: seq<string>)
    requires a != [] && b != []
    ensures var field := Resolve(messages, root, a);
            Resolve(messages, root, a + b) ==
            if field.None? || field.value.typeName.None? then None
            else Resolve(messages, field.value.typeName.value, b)
    decreases |a|
  {
    assert (a + b)[1..] == a[1..] + b;
    if |a| == 1 {
      assert a[1..] + b == b;
    } else if Resolve(messages, root, a[..1]).Some? && Resolve(messages, root, a[..1]).value.typeName.Some? {
      ResolveAppend(messages, Resolve(messages, root, a[..1]).value.typeName.value, a[1..], b);
    }
  }

  /** Resolving p.q is resolving q from the type p resolves to; it fails when p fails or has no message type. */
  lemma {:induction false} ResolveComposes(messages: map<string, MessageDocs>, root: string, p: string, q: string)
    ensures var field := Resolve(messages, root, Split(p, '.'));
            Resolve(messages, root, Split(p + "." + q, '.')) ==
            if field.None? || field.value.typeName.None? then None
            else Resolve(messages, field.value.typeName.value, Split(q, '.'))
  {
    SplitConcat(p, '.', q);
    assert p + "." + q == p + ['.'] + q;
    ResolveAppend(messages, root, Split(p, '.'), Split(q, '.'));
  }

  // ----- the registry -----

  class SymbolRegistry {
    var messages: map<string, MessageDocs>

    constructor (files: seq<File>)
      ensures messages == InsertAll(map[], FilesInsertions(files))
    {
      messages := map[];
      new;
      assert files[0..] == files;
      for i := 0 to |files|
        invariant InsertAll(messages, FilesInsertions(files[i..])) == InsertAll(map[], FilesInsertions(files))
      {
        assert files[i..][1..] == files[i + 1..];
        InsertAppend(messages, Insertions(files[i].messages, Scope(files[i])), FilesInsertions(files[i + 1..]));
        ProcessFile(files[i]);
      }
    }

    method ProcessFile(file: File)
      modifies this
      ensures messages == InsertAll(old(messages), Insertions(file.messages, Scope(file)))
    {
      var package := OrEmpty(file.package);
      var prefix := if package == "" then "" else "." + package;
      ProcessMessages(file.messages, prefix);
    }

    /** The loop over sibling messages, at the top of a file or nested in a message. */
    method ProcessMessages(siblings: seq<Descriptor>, scope: string)
      modifies this
      ensures messages == InsertAll(old(messages), Insertions(siblings, scope))
      decreases siblings, 1
    {
      assert siblings[0..] == siblings;
      for i := 0 to |siblings|
        invariant InsertAll(messages, Insertions(siblings[i..], scope)) ==
                  InsertAll(old(messages), Insertions(siblings, scope))
      {
        assert siblings[i..][1..] == siblings[i + 1..];
        InsertAppend(messages, Insertions([siblings[i]], scope), Insertions(siblings[i + 1..], scope));
        OneThenRest(siblings[i..], scope);
        ProcessMessage(siblings[i], scope);
      }
    }

    method ProcessMessage(message: Descriptor, scope: string)
      modifies this
      ensures messages == InsertAll(old(messages), Insertions([message], scope))
      decreases message, 0
    {
      var fullName := scope + "." + OrEmpty(message.name);
      var fields: map<string, FieldDocs> := map[];
      for i := 0 to |message.fields|
        invariant fields == FieldTable(message.fields[..i])
      {
        var field := message.fields[i];
        assert message.fields[..i + 1][..i] == message.fields[..i];
        fields := fields[OrEmpty(field.name) := FieldDocs(field.fieldLabel, field.typeName, field.fieldType)];
      }
      assert message.fields[..|message.fields|] == message.fields;
      ghost var insertion := Insertion(fullName, DocsOf(message));
      InsertAppend(messages, [insertion], Insertions(message.nested, fullName));
      assert InsertAll(messages, [insertion]) == messages[fullName := MessageDocs(fields)];
      messages := messages[fullName := MessageDocs(fields)];
      ProcessMessages(message.nested, fullName);
      OneMessage(message, scope);
    }

    /** `resolve_field`: walks a dotted path from type to type. */
    method ResolveField(rootType: string, fieldPath: string) returns (r: Option<FieldDocs>)
      ensures r == Resolve(messages, rootType, Split(fieldPath, '.'))
    {
      var parts := Split(fieldPath, '.');
      var currentType := rootType;
      assert parts[0..] == parts;
      for i := 0 to |parts|
        invariant i < |parts|
                  ==> Resolve(messages, rootType, parts) == Resolve(messages, currentType, parts[i..])
        invariant i < |parts|
      {
        assert parts[i..][1..] == parts[i + 1..];
        if currentType !in messages {
          return None;
        }
        var fields := messages[currentType].fields;
        if parts[i] !in fields {
          return None;
        }
        var field := fields[parts[i]];
        if i == |parts| - 1 {
          return Some(field);
        }
        if field.typeName.None? {
          return None;
        }
        currentType := field.typeName.value;
      }
      r := None;
    }
  }

  lemma {:induction false} OneMessage(m: Descriptor, scope: string)
    ensures Insertions([m], scope) ==
            [Insertion(FullName(scope, m), DocsOf(m))] + Insertions(m.nested, FullName(scope, m))
  {
    assert [m][1..] == [];
  }

  lemma {:induction false} OneThenRest(messages: seq<Descriptor>, scope: string)
    requires messages != []
    ensures Insertions(messages, scope) == Insertions([messages[0]], scope) + Insertions(messages[1..], scope)
  {
    OneMessage(messages[0], scope);
  }
}
