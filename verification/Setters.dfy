/** The field setters the generator emits, and what running them does to a request message. */
module Setters {
  import opened Text
  import opened Registry

  // ----- messages -----

  /** A repeated field holds values, a message field maybe a message, any other field one value. */
  datatype Slot<V> = Leaf(value: V) | Repeated(values: seq<V>) | Child(message: Option<Message<V>>)

  datatype Message<V> = Message(fields: map<string, Slot<V>>)

  /**
   * What the generated code gets from elsewhere: the message types, how text becomes a value, and which fields of
   * a message type are wrapped: optional scalars and members of a oneof, which take no plain value.
   */
  datatype Env<!V> = Env(
    types: map<string, MessageDocs>,
    zero: FieldDocs -> V,
    parse: (FieldDocs, string) -> V,
    bytes: string -> V,
    wrapped: (string, string) -> bool)

  predicate IsMessage(f: FieldDocs)
  {
    f.fieldType == Some(11)
  }

  predicate IsRepeated(f: FieldDocs)
  {
    f.fieldLabel == Some(3)
  }

  predicate IsBytes(f: FieldDocs)
  {
    f.fieldType == Some(12)
  }

  function ZeroSlot<V>(env: Env<V>, f: FieldDocs): Slot<V>
  {
    if IsRepeated(f) then Repeated([]) else if IsMessage(f) then Child(None) else Leaf(env.zero(f))
  }

  function Default<V>(env: Env<V>, typeName: string): Message<V>
    requires typeName in env.types
  {
    var fields := env.types[typeName].fields;
    Message(map name | name in fields :: ZeroSlot(env, fields[name]))
  }

  ghost predicate SlotConforms<V>(env: Env<V>, f: FieldDocs, slot: Slot<V>)
    decreases slot, 0
  {
    if IsRepeated(f) then slot.Repeated?
    else if IsMessage(f) then
      slot.Child? &&
      (slot.message.Some? ==> f.typeName.Some? && Conforms(env, f.typeName.value, slot.message.value))
    else slot.Leaf?
  }

  /** The message has exactly the fields of its type, each of the right kind, all the way down. */
  ghost predicate Conforms<V>(env: Env<V>, typeName: string, m: Message<V>)
    decreases m, 1
  {
    && typeName in env.types
    && m.fields.Keys == env.types[typeName].fields.Keys
    && forall name | name in m.fields :: SlotConforms(env, env.types[typeName].fields[name], m.fields[name])
  }

  lemma {:induction false} DefaultConforms<V>(env: Env<V>, typeName: string)
    requires typeName in env.types
    ensures Conforms(env, typeName, Default(env, typeName))
  {
  }

  // ----- the emitted statement -----

  /** `proto_req`, or a field of a place entered with `get_or_insert_with(Default::default)`. */
  datatype Access = Root | GetOrInsert(base: Access, field: string)

  datatype Decoding = ParseText | RawBytes

  /** `access.field = decoded;` or `access.field.push(decoded);` */
  datatype Stmt =
    | AssignTo(target: Access, field: string, decoding: Decoding)
    | PushTo(target: Access, field: string, decoding: Decoding)

  function EnterAll(parts: seq<string>): Access
  {
    if parts == [] then Root else GetOrInsert(EnterAll(parts[..|parts| - 1]), parts[|parts| - 1])
  }

  function Setter(parts: seq<string>, isRepeated: bool, fieldType: Option<int>): Stmt
    requires parts != []
  {
    var n := |parts| - 1;
    var decoding := if fieldType == Some(12) then RawBytes else ParseText;
    var target := EnterAll(parts[..n]);
    if isRepeated then PushTo(target, parts[n], decoding) else AssignTo(target, parts[n], decoding)
  }

  /** `generate_setter`: the loop extends the access chain part by part. */
  method GenerateSetter(fieldPath: string, isRepeated: bool, fieldType: Option<int>) returns (r: Stmt)
    ensures r == Setter(Split(fieldPath, '.'), isRepeated, fieldType)
  {
    var parts := Split(fieldPath, '.');
    var decoding := if fieldType == Some(12) then RawBytes else ParseText;
    if |parts| == 1 {
      if isRepeated {
        return PushTo(Root, parts[0], decoding);
      } else {
        return AssignTo(Root, parts[0], decoding);
      }
    }
    var access := Root;
    var i := 0;
    while i < |parts| - 1
      invariant 0 <= i <= |parts| - 1
      invariant access == EnterAll(parts[..i])
    {
      assert parts[..i + 1][..i] == parts[..i];
      access := GetOrInsert(access, parts[i]);
      i := i + 1;
    }
    if isRepeated {
      r := PushTo(access, parts[i], decoding);
    } else {
      r := AssignTo(access, parts[i], decoding);
    }
  }

  // ----- running it -----

  function Steps(access: Access): seq<string>
  {
    match access
    case Root => []
    case GetOrInsert(base, field) => Steps(base) + [field]
  }

  lemma {:induction false} EnterAllSteps(parts: seq<string>)
    ensures Steps(EnterAll(parts)) == parts
  {
    if parts != [] {
      EnterAllSteps(parts[..|parts| - 1]);
      assert parts[..|parts| - 1] + [parts[|parts| - 1]] == parts;
    }
  }

  /** The emitted statement reaches exactly the parts of the field path. */
  lemma SetterSteps(parts: seq<string>, isRepeated: bool, fieldType: Option<int>)
    requires parts != []
    ensures var stmt := Setter(parts, isRepeated, fieldType);
            && Steps(stmt.target) + [stmt.field] == parts
            && (stmt.PushTo? <==> isRepeated)
            && (stmt.decoding == RawBytes <==> fieldType == Some(12))
  {
    EnterAllSteps(parts[..|parts| - 1]);
  }

  datatype Edit<V> = SetTo(value: V) | Append(value: V)

  /** None where the emitted statement does not typecheck. */
  function EditSlot<V>(f: FieldDocs, slot: Slot<V>, edit: Edit<V>): Option<Slot<V>>
  {
    if IsMessage(f) then None
    else match (slot, edit)
      case (Leaf(_), SetTo(v)) => Some(Leaf(v))
      case (Repeated(vs), Append(v)) => Some(Repeated(vs + [v]))
      case _ => None
  }

  /** A singular message field: the only kind `get_or_insert_with` steps into. */
  predicate Enterable(types: map<string, MessageDocs>, f: FieldDocs)
  {
    IsMessage(f) && !IsRepeated(f) && f.typeName.Some? && f.typeName.value in types
  }

  function Inside<V>(env: Env<V>, f: FieldDocs, slot: Slot<V>): Message<V>
    requires Enterable(env.types, f)
  {
    if slot.Child? && slot.message.Some? then slot.message.value else Default(env, f.typeName.value)
  }

  /** Edits the field at the end of a path, creating the messages on the way that are not there. */
  function Update<V>(env: Env<V>, typeName: string, m: Message<V>, path: seq<string>, edit: Edit<V>): Option<Message<V>>
    requires path != []
    decreases |path|
  {
    if typeName !in env.types || path[0] !in env.types[typeName].fields || path[0] !in m.fields then None
    else
      var f, slot := env.types[typeName].fields[path[0]], m.fields[path[0]];
      if env.wrapped(typeName, path[0]) then None
      else if |path| == 1 then
        var slot' := EditSlot(f, slot, edit);
        if slot'.None? then None else Some(Message(m.fields[path[0] := slot'.value]))
      else if !Enterable(env.types, f) then None
      else
        var inner := Update(env, f.typeName.value, Inside(env, f, slot), path[1..], edit);
        if inner.None? then None else Some(Message(m.fields[path[0] := Child(Some(inner.value))]))
  }

  function Decode<V>(env: Env<V>, f: FieldDocs, decoding: Decoding, text: string): V
  {
    if decoding == RawBytes then env.bytes(text) else env.parse(f, text)
  }

  /** Runs an emitted setter on a message with a captured text. */
  function Exec<V>(env: Env<V>, typeName: string, stmt: Stmt, text: string, m: Message<V>): Option<Message<V>>
  {
    var path := Steps(stmt.target) + [stmt.field];
    var f := Resolve(env.types, typeName, path);
    if f.None? then None
    else
      var v := Decode(env, f.value, stmt.decoding, text);
      Update(env, typeName, m, path, if stmt.PushTo? then Append(v) else SetTo(v))
  }

  /** Reads the field at the end of a path; an absent message on the way reads as its default. */
  function Read<V>(env: Env<V>, typeName: string, m: Message<V>, path: seq<string>): Option<Slot<V>>
    requires path != []
    decreases |path|
  {
    if typeName !in env.types || path[0] !in env.types[typeName].fields || path[0] !in m.fields then None
    else
      var f, slot := env.types[typeName].fields[path[0]], m.fields[path[0]];
      if |path| == 1 then Some(slot)
      else if !Enterable(env.types, f) then None
      else Read(env, f.typeName.value, Inside(env, f, slot), path[1..])
  }

  // ----- laws of one update -----

  predicate Unrelated(p: seq<string>, q: seq<string>)
  {
    !(p <= q) && !(q <= p)
  }

  lemma {:induction false} ReadUpdated<V>(env: Env<V>, typeName: string, m: Message<V>, path: seq<string>,
      edit: Edit<V>)
    requires path != [] && Update(env, typeName, m, path, edit).Some?
    ensures var m' := Update(env, typeName, m, path, edit).value;
            && Read(env, typeName, m, path).Some?
            && Resolve(env.types, typeName, path).Some?
            && Read(env, typeName, m', path) ==
               EditSlot(Resolve(env.types, typeName, path).value, Read(env, typeName, m, path).value, edit)
    decreases |path|
  {
    if |path| > 1 {
      var f, slot := env.types[typeName].fields[path[0]], m.fields[path[0]];
      ReadUpdated(env, f.typeName.value, Inside(env, f, slot), path[1..], edit);
    }
  }

  /** Fields elsewhere, siblings inside a message on the way included, read as before. */
  lemma {:induction false} ReadElsewhere<V>(env: Env<V>, typeName: string, m: Message<V>, path: seq<string>,
      edit: Edit<V>, q: seq<string>)
    requires path != [] && q != [] && Unrelated(path, q)
    requires Update(env, typeName, m, path, edit).Some?
    ensures Read(env, typeName, Update(env, typeName, m, path, edit).value, q) == Read(env, typeName, m, q)
    decreases |path|
  {
    if path[0] == q[0] {
      assert path == [path[0]] + path[1..] && q == [q[0]] + q[1..];
      assert Unrelated(path[1..], q[1..]);
      var f, slot := env.types[typeName].fields[path[0]], m.fields[path[0]];
      assert |path| > 1 && |q| > 1;
      ReadElsewhere(env, f.typeName.value, Inside(env, f, slot), path[1..], edit, q[1..]);
    }
  }

  /** A path of singular message fields ending in a field that is not a message, none of them wrapped. */
  predicate Settable<V>(env: Env<V>, typeName: string, path: seq<string>)
    requires path != []
    decreases |path|
  {
    && typeName in env.types && path[0] in env.types[typeName].fields && !env.wrapped(typeName, path[0])
    && var f := env.types[typeName].fields[path[0]];
       if |path| == 1 then !IsMessage(f)
       else Enterable(env.types, f) && Settable(env, f.typeName.value, path[1..])
  }

  lemma {:induction false} SettableResolves<V>(env: Env<V>, typeName: string, path: seq<string>)
    requires path != [] && Settable(env, typeName, path)
    ensures Resolve(env.types, typeName, path).Some? && !IsMessage(Resolve(env.types, typeName, path).value)
    decreases |path|
  {
    if |path| > 1 {
      SettableResolves(env, env.types[typeName].fields[path[0]].typeName.value, path[1..]);
    }
  }

  lemma {:induction false} InsideConforms<V>(env: Env<V>, f: FieldDocs, slot: Slot<V>)
    requires Enterable(env.types, f) && SlotConforms(env, f, slot)
    ensures Conforms(env, f.typeName.value, Inside(env, f, slot))
  {
    DefaultConforms(env, f.typeName.value);
  }

  /** On a message of its type, an update of the right kind succeeds exactly on settable paths, and keeps the type. */
  lemma {:induction false} UpdateConforms<V>(env: Env<V>, typeName: string, m: Message<V>, path: seq<string>,
      edit: Edit<V>)
    requires path != [] && Conforms(env, typeName, m)
    requires var f := Resolve(env.types, typeName, path); f.Some? ==> edit.Append? == IsRepeated(f.value)
    ensures Update(env, typeName, m, path, edit).Some? <==> Settable(env, typeName, path)
    ensures var m' := Update(env, typeName, m, path, edit); m'.Some? ==> Conforms(env, typeName, m'.value)
    decreases |path|
  {
    if path[0] in m.fields {
      var f, slot := env.types[typeName].fields[path[0]], m.fields[path[0]];
      assert SlotConforms(env, f, slot);
      if |path| > 1 && Enterable(env.types, f) {
        InsideConforms(env, f, slot);
        UpdateConforms(env, f.typeName.value, Inside(env, f, slot), path[1..], edit);
      }
    }
  }

  // ----- parameters of a binding -----

  datatype Param = Param(fieldPath: string, isRepeated: bool, fieldType: Option<int>)

  /** One variable of a compiled pattern as a parameter; a missing leading dot of the input type is tried too. */
  function ParamOf(types: map<string, MessageDocs>, inputType: string, v: string): Param
  {
    var path := Split(v, '.');
    var field := Resolve(types, inputType, path);
    if field.Some? then Param(v, IsRepeated(field.value), field.value.fieldType)
    else if inputType == "" || inputType[0] != '.' then
      var dotted := Resolve(types, "." + inputType, path);
      if dotted.Some? then Param(v, IsRepeated(dotted.value), dotted.value.fieldType) else Param(v, false, None)
    else Param(v, false, None)
  }

  function ParamsOf(types: map<string, MessageDocs>, inputType: string, vars: seq<string>): (params: seq<Param>)
    ensures |params| == |vars|
    ensures forall i :: 0 <= i < |vars| ==> params[i] == ParamOf(types, inputType, vars[i])
  {
    seq(|vars|, i requires 0 <= i < |vars| => ParamOf(types, inputType, vars[i]))
  }

  function RunParam<V>(env: Env<V>, typeName: string, param: Param, captured: map<string, string>, m: Message<V>)
    : Option<Message<V>>
  {
    if param.fieldPath in captured then
      Exec(env, typeName, Setter(Split(param.fieldPath, '.'), param.isRepeated, param.fieldType),
           captured[param.fieldPath], m)
    else Some(m)
  }

  /** The emitted population code: each parameter that was captured runs its setter, in order. */
  function Populate<V>(env: Env<V>, typeName: string, params: seq<Param>, captured: map<string, string>, m: Message<V>)
    : Option<Message<V>>
    decreases |params|
  {
    if params == [] then Some(m)
    else
      var next := RunParam(env, typeName, params[0], captured, m);
      if next.None? then None else Populate(env, typeName, params[1..], captured, next.value)
  }

  /** The message the emitted code starts from: the decoded body for "*", a default message for anything else. */
  function Initial<V>(env: Env<V>, inputType: string, body: string, decoded: Message<V>): Message<V>
    requires inputType in env.types
  {
    if body == "*" then decoded else Default(env, inputType)
  }

  /** What a field must read after its setter ran on it. */
  function Received<V>(env: Env<V>, typeName: string, path: seq<string>, before: Option<Slot<V>>, text: string)
    : Option<Slot<V>>
    requires path != []
  {
    var f := Resolve(env.types, typeName, path);
    if f.None? || before.None? then None
    else
      var v := if IsBytes(f.value) then env.bytes(text) else env.parse(f.value, text);
      match before.value
      case Leaf(_) => Some(Leaf(v))
      case Repeated(vs) => Some(Repeated(vs + [v]))
      case Child(_) => None
  }

  function EditFor<V>(env: Env<V>, f: FieldDocs, text: string): Edit<V>
  {
    var v := if IsBytes(f) then env.bytes(text) else env.parse(f, text);
    if IsRepeated(f) then Append(v) else SetTo(v)
  }

  /** The setter of a resolved parameter is one update at the parameter's path. */
  lemma {:induction false} RunParamUpdates<V>(env: Env<V>, typeName: string, v: string, captured: map<string, string>,
      m: Message<V>)
    requires v in captured && Resolve(env.types, typeName, Split(v, '.')).Some?
    ensures var path := Split(v, '.');
            RunParam(env, typeName, ParamOf(env.types, typeName, v), captured, m) ==
            Update(env, typeName, m, path, EditFor(env, Resolve(env.types, typeName, path).value, captured[v]))
  {
    var path := Split(v, '.');
    var f := Resolve(env.types, typeName, path).value;
    var param := ParamOf(env.types, typeName, v);
    assert param == Param(v, IsRepeated(f), f.fieldType);
    SetterSteps(path, param.isRepeated, param.fieldType);
  }

  lemma {:induction false} EditReceived<V>(env: Env<V>, typeName: string, path: seq<string>, slot: Slot<V>,
      text: string)
    requires path != [] && Resolve(env.types, typeName, path).Some?
    requires var f := Resolve(env.types, typeName, path).value; EditSlot(f, slot, EditFor(env, f, text)).Some?
    ensures var f := Resolve(env.types, typeName, path).value;
            EditSlot(f, slot, EditFor(env, f, text)) == Received(env, typeName, path, Some(slot), text)
  {
  }

  /** In m' the field at a path holds what it had in m with the text received. */
  ghost predicate Receives<V>(env: Env<V>, typeName: string, m: Message<V>, m': Message<V>, path: seq<string>,
      text: string)
    requires path != []
  {
    var after := Read(env, typeName, m', path);
    after.Some? && after == Received(env, typeName, path, Read(env, typeName, m, path), text)
  }

  ghost predicate SameAt<V>(env: Env<V>, typeName: string, m: Message<V>, m': Message<V>, q: seq<string>)
    requires q != []
  {
    Read(env, typeName, m', q) == Read(env, typeName, m, q)
  }

  /** One captured parameter: its own field receives the text, every unrelated field keeps its value. */
  lemma {:induction false} RunParamReads<V>(env: Env<V>, typeName: string, v: string, captured: map<string, string>,
      m: Message<V>)
    requires Conforms(env, typeName, m) && v in captured
    requires Settable(env, typeName, Split(v, '.'))
    ensures var path := Split(v, '.');
            var m' := RunParam(env, typeName, ParamOf(env.types, typeName, v), captured, m);
            && m'.Some? && Conforms(env, typeName, m'.value)
            && Receives(env, typeName, m, m'.value, path, captured[v])
            && forall q :: q != [] && Unrelated(path, q) ==> SameAt(env, typeName, m, m'.value, q)
  {
    var path := Split(v, '.');
    SettableResolves(env, typeName, path);
    RunParamUpdates(env, typeName, v, captured, m);
    var f := Resolve(env.types, typeName, path).value;
    var edit := EditFor(env, f, captured[v]);
    UpdateConforms(env, typeName, m, path, edit);
    ReadUpdated(env, typeName, m, path, edit);
    var m' := Update(env, typeName, m, path, edit).value;
    ReadConforming(env, typeName, m, path);
    EditReceived(env, typeName, path, Read(env, typeName, m, path).value, captured[v]);
    forall q | q != [] && Unrelated(path, q) ensures SameAt(env, typeName, m, m', q) {
      ReadElsewhere(env, typeName, m, path, edit, q);
    }
  }

  // ----- the same, in terms of the descriptor's numbers -----

  /** A default message: label 3 is an empty list, type 11 no message, anything else its type's zero. */
  lemma {:induction false} DefaultFields<V>(env: Env<V>, typeName: string, name: string)
    requires typeName in env.types && name in env.types[typeName].fields
    ensures var f := env.types[typeName].fields[name];
            Read(env, typeName, Default(env, typeName), [name]) ==
            Some(if f.fieldLabel == Some(3) then Repeated([])
                 else if f.fieldType == Some(11) then Child(None)
                 else Leaf(env.zero(f)))
  {
  }

  /** Settable fields: no type 11 at the end, and on the way there type 11 without label 3. */
  lemma {:induction false} SettableExactly<V>(env: Env<V>, typeName: string, path: seq<string>)
    requires path != []
    ensures Settable(env, typeName, path) <==>
            && typeName in env.types && path[0] in env.types[typeName].fields && !env.wrapped(typeName, path[0])
            && var f := env.types[typeName].fields[path[0]];
               if |path| == 1 then f.fieldType != Some(11)
               else
                 && f.fieldType == Some(11) && f.fieldLabel != Some(3)
                 && f.typeName.Some? && f.typeName.value in env.types
                 && Settable(env, f.typeName.value, path[1..])
  {
  }

  /** The parameter of a variable: repeated iff its field has label 3, with the field's own type. */
  lemma {:induction false} ParamExactly(types: map<string, MessageDocs>, inputType: string, v: string)
    ensures var path := Split(v, '.');
            var found, dotted := Resolve(types, inputType, path), Resolve(types, "." + inputType, path);
            var param := ParamOf(types, inputType, v);
            && (found.Some? ==> param == Param(v, found.value.fieldLabel == Some(3), found.value.fieldType))
            && (found.None? && !("." <= inputType) && dotted.Some? ==>
                  param == Param(v, dotted.value.fieldLabel == Some(3), dotted.value.fieldType))
            && (found.None? && ("." <= inputType || dotted.None?) ==> param == Param(v, false, None))
  {
  }

  /** The statement emitted for a variable pushes iff its field has label 3, and takes raw bytes iff it has type 12. */
  lemma {:induction false} EmittedSetter(types: map<string, MessageDocs>, inputType: string, v: string)
    requires Resolve(types, inputType, Split(v, '.')).Some?
    ensures var f := Resolve(types, inputType, Split(v, '.')).value;
            var param := ParamOf(types, inputType, v);
            var stmt := Setter(Split(param.fieldPath, '.'), param.isRepeated, param.fieldType);
            && Steps(stmt.target) + [stmt.field] == Split(v, '.')
            && (stmt.PushTo? <==> f.fieldLabel == Some(3))
            && (stmt.decoding == RawBytes <==> f.fieldType == Some(12))
  {
    hide Resolve, Split;
    ParamExactly(types, inputType, v);
    var param := ParamOf(types, inputType, v);
    SetterSteps(Split(v, '.'), param.isRepeated, param.fieldType);
  }

  /** After the setter a label-3 field reads its old values and one more, any other field the new value alone. */
  lemma {:induction false} SetterEffect<V>(env: Env<V>, typeName: string, v: string, captured: map<string, string>,
      m: Message<V>)
    requires Conforms(env, typeName, m) && v in captured && Settable(env, typeName, Split(v, '.'))
    ensures var path := Split(v, '.');
            var f := Resolve(env.types, typeName, path);
            var after := RunParam(env, typeName, ParamOf(env.types, typeName, v), captured, m);
            && f.Some? && after.Some?
            && var value := if f.value.fieldType == Some(12) then env.bytes(captured[v])
                            else env.parse(f.value, captured[v]);
               if f.value.fieldLabel == Some(3) then
                 exists values :: Read(env, typeName, m, path) == Some(Repeated(values))
                   && Read(env, typeName, after.value, path) == Some(Repeated(values + [value]))
               else Read(env, typeName, after.value, path) == Some(Leaf(value))
  {
    hide Read, Resolve, Settable, Conforms, Split, RunParam, ParamOf;
    var path := Split(v, '.');
    SettableResolves(env, typeName, path);
    RunParamReads(env, typeName, v, captured, m);
    ReadConforming(env, typeName, m, path);
    var f := Resolve(env.types, typeName, path).value;
    var slot := Read(env, typeName, m, path).value;
    assert EditSlot(f, slot, EditFor(env, f, captured[v])).Some?;
    if f.fieldLabel == Some(3) { assert slot == Repeated(slot.values); }
  }

  /** A parameter that was not captured changes nothing. */
  lemma NotCaptured<V>(env: Env<V>, typeName: string, param: Param, captured: map<string, string>, m: Message<V>)
    requires param.fieldPath !in captured
    ensures RunParam(env, typeName, param, captured, m) == Some(m)
  {
  }

  /** A settable field of a message of its type can be read, and takes the edit of its own kind. */
  lemma {:induction false} ReadConforming<V>(env: Env<V>, typeName: string, m: Message<V>, path: seq<string>)
    requires path != [] && Conforms(env, typeName, m) && Settable(env, typeName, path)
    ensures var f, slot := Resolve(env.types, typeName, path), Read(env, typeName, m, path);
            f.Some? && slot.Some? && forall text :: EditSlot(f.value, slot.value, EditFor(env, f.value, text)).Some?
    decreases |path|
  {
    var f, slot := env.types[typeName].fields[path[0]], m.fields[path[0]];
    assert SlotConforms(env, f, slot);
    if |path| > 1 {
      InsideConforms(env, f, slot);
      ReadConforming(env, f.typeName.value, Inside(env, f, slot), path[1..]);
    }
  }

  ghost predicate PairwiseUnrelated(vars: seq<string>)
  {
    forall i, j :: 0 <= i < |vars| && 0 <= j < |vars| && i != j ==> Unrelated(Split(vars[i], '.'), Split(vars[j], '.'))
  }

  ghost predicate UnrelatedToAll(vars: seq<string>, q: seq<string>)
  {
    q != [] && forall v <- vars :: Unrelated(Split(v, '.'), q)
  }

  lemma FirstUnrelated(vars: seq<string>)
    requires PairwiseUnrelated(vars) && vars != []
    ensures PairwiseUnrelated(vars[1..]) && UnrelatedToAll(vars[1..], Split(vars[0], '.'))
  {
    var rest := vars[1..];
    forall i, j | 0 <= i < |rest| && 0 <= j < |rest| && i != j
      ensures Unrelated(Split(rest[i], '.'), Split(rest[j], '.'))
    {
      assert rest[i] == vars[i + 1] && rest[j] == vars[j + 1];
    }
    forall w | w in rest ensures Unrelated(Split(w, '.'), Split(vars[0], '.')) {
      var j :| 0 <= j < |rest| && rest[j] == w;
      assert vars[j + 1] == w;
    }
  }

  /** All setters in order: every bound field receives its own text, every field no setter touches is kept. */
  lemma {:induction false} PopulateReads<V>(env: Env<V>, typeName: string, vars: seq<string>,
      captured: map<string, string>, m: Message<V>)
    requires Conforms(env, typeName, m) && PairwiseUnrelated(vars)
    requires forall v <- vars :: v in captured && Settable(env, typeName, Split(v, '.'))
    ensures var m' := Populate(env, typeName, ParamsOf(env.types, typeName, vars), captured, m);
            && m'.Some? && Conforms(env, typeName, m'.value)
            && (forall v <- vars :: Receives(env, typeName, m, m'.value, Split(v, '.'), captured[v]))
            && (forall q :: UnrelatedToAll(vars, q) ==> SameAt(env, typeName, m, m'.value, q))
    decreases |vars|
  {
    if vars != [] {
      var first, rest := vars[0], vars[1..];
      var params := ParamsOf(env.types, typeName, vars);
      assert first in vars && forall v <- rest :: v in vars;
      FirstUnrelated(vars);
      RunParamReads(env, typeName, first, captured, m);
      var next := RunParam(env, typeName, params[0], captured, m).value;
      assert params[1..] == ParamsOf(env.types, typeName, rest);
      PopulateReads(env, typeName, rest, captured, next);
      var m' := Populate(env, typeName, params[1..], captured, next).value;
      assert SameAt(env, typeName, next, m', Split(first, '.'));
      forall v | v in vars ensures Receives(env, typeName, m, m', Split(v, '.'), captured[v]) {
        if v != first {
          assert v in rest;
          assert Unrelated(Split(first, '.'), Split(v, '.'));
          assert SameAt(env, typeName, m, next, Split(v, '.'));
        }
      }
      forall q | UnrelatedToAll(vars, q) ensures SameAt(env, typeName, m, m', q) {
        assert UnrelatedToAll(rest, q);
        assert SameAt(env, typeName, m, next, q);
      }
    }
  }
}
