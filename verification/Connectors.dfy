/** The config planner of the connectors: it edits one entry of a JSON config and leaves the rest alone. */
module Connectors {
  import opened JsText
  import opened Json

  // ----- Editing the fields of an object -----

  /** `object[key] = value`: in place if the key exists, else at the end. */
  function SetField(fields: seq<Field>, key: Text, value: Json): (r: seq<Field>)
    ensures |r| > 0
  {
    if |fields| == 0 then [Field(key, value)]
    else if fields[0].key == key then [Field(key, value)] + fields[1..]
    else [fields[0]] + SetField(fields[1..], key, value)
  }

  /** `delete object[key]`. */
  function RemoveField(fields: seq<Field>, key: Text): seq<Field>
  {
    if |fields| == 0 then []
    else if fields[0].key == key then fields[1..]
    else [fields[0]] + RemoveField(fields[1..], key)
  }

  lemma {:induction false} GetSet(fields: seq<Field>, key: Text, value: Json, k: Text)
    ensures Get(SetField(fields, key, value), k) == if k == key then Some(value) else Get(fields, k)
  {
    var r := SetField(fields, key, value);
    if |fields| == 0 {
      assert r[1..] == [];
    } else if fields[0].key == key {
      assert r[1..] == fields[1..];
    } else {
      GetSet(fields[1..], key, value, k);
      assert r[1..] == SetField(fields[1..], key, value);
    }
  }

  lemma {:induction false} GetRemove(fields: seq<Field>, key: Text, k: Text)
    requires k != key
    ensures Get(RemoveField(fields, key), k) == Get(fields, k)
  {
    if |fields| > 0 && fields[0].key != key {
      GetRemove(fields[1..], key, k);
      assert RemoveField(fields, key)[1..] == RemoveField(fields[1..], key);
    }
  }

  lemma {:induction false} SetSame(fields: seq<Field>, key: Text)
    requires Get(fields, key).Some?
    ensures SetField(fields, key, Get(fields, key).value) == fields
  {
    if fields[0].key != key { SetSame(fields[1..], key); }
    assert fields == [fields[0]] + fields[1..];
  }

  lemma {:induction false} SetTwice(fields: seq<Field>, key: Text, first: Json, second: Json)
    ensures SetField(SetField(fields, key, first), key, second) == SetField(fields, key, second)
  {
    var r := SetField(fields, key, first);
    if |fields| == 0 {
      assert r[1..] == [];
    } else if fields[0].key == key {
      assert r[1..] == fields[1..];
    } else {
      SetTwice(fields[1..], key, first, second);
      assert r[1..] == SetField(fields[1..], key, first);
    }
  }

  lemma {:induction false} RemoveSet(fields: seq<Field>, key: Text, value: Json)
    ensures RemoveField(SetField(fields, key, value), key) == RemoveField(fields, key)
    ensures Get(fields, key).None? ==> RemoveField(fields, key) == fields
  {
    var r := SetField(fields, key, value);
    if |fields| == 0 {
      assert r[1..] == [];
    } else if fields[0].key == key {
      assert r[1..] == fields[1..];
    } else {
      RemoveSet(fields[1..], key, value);
      assert r[1..] == SetField(fields[1..], key, value);
      assert fields == [fields[0]] + fields[1..];
    }
  }

  lemma {:induction false} RemoveShrinks(fields: seq<Field>, key: Text)
    ensures |RemoveField(fields, key)| == if Get(fields, key).Some? then |fields| - 1 else |fields|
  {
    if |fields| > 0 && fields[0].key != key { RemoveShrinks(fields[1..], key); }
  }

  // ----- Editing at a path -----

  type Path = seq<Text>

  datatype Edit = Put(name: Text, value: Json) | Drop(name: Text) | Keep

  function Edited(fields: seq<Field>, edit: Edit): seq<Field>
  {
    match edit
    case Put(name, value) => SetField(fields, name, value)
    case Drop(name) => RemoveField(fields, name)
    case Keep => fields
  }

  /** The member of an object, as an object; absent members and members that are not objects read as empty. */
  function Child(fields: seq<Field>, key: Text): (r: Json)
    ensures r.Obj?
  {
    var v := Get(fields, key);
    if v.Some? && v.value.Obj? then v.value else Obj([])
  }

  /** The config with the object at a path edited; missing objects on the way are created. */
  function Update(config: Json, path: Path, edit: Edit): (r: Json)
    requires config.Obj?
    ensures r.Obj?
    decreases |path|
  {
    if |path| == 0 then Obj(Edited(config.fields, edit))
    else Obj(SetField(config.fields, path[0], Update(Child(config.fields, path[0]), path[1..], edit)))
  }

  /** What is at a path; a member on the way that is present but is no object makes the search throw. */
  function Find(config: Json, path: Path): (r: Result<Option<Json>>)
    requires config.Obj?
    ensures r.Ok? && r.value.Some? ==> r.value.value.Obj?
    decreases |path|
  {
    if |path| == 0 then Ok(Some(config))
    else match Get(config.fields, path[0])
      case None => Ok(None)
      case Some(v) => if v.Obj? then Find(v, path[1..]) else Throws
  }

  /** What a reader of the config sees at a path of keys. */
  function LookAt(v: Json, path: Path): Option<Json>
    decreases |path|
  {
    if |path| == 0 then Some(v)
    else match Property(v, path[0])
      case None => None
      case Some(w) => LookAt(w, path[1..])
  }

  /** The paths part before either ends. */
  predicate Diverge(p: Path, q: Path)
    decreases |p|
  {
    |p| > 0 && |q| > 0 && (p[0] != q[0] || Diverge(p[1..], q[1..]))
  }

  function Target(path: Path, edit: Edit): Path
  {
    if edit.Keep? then path else path + [edit.name]
  }

  // ----- Frame -----

  lemma EditedFrame(fields: seq<Field>, edit: Edit, key: Text)
    requires edit.Keep? || key != edit.name
    ensures Get(Edited(fields, edit), key) == Get(fields, key)
  {
    match edit
    case Put(name, value) => GetSet(fields, name, value, key);
    case Drop(name) => GetRemove(fields, name, key);
    case Keep =>
  }

  /** Every path that parts from the edited one reads as before, at every level. */
  lemma {:induction false} UpdateFrame(config: Json, path: Path, edit: Edit, q: Path)
    requires config.Obj? && Find(config, path).Ok? && Diverge(Target(path, edit), q)
    ensures LookAt(Update(config, path, edit), q) == LookAt(config, q)
    decreases |path|
  {
    if |path| == 0 {
      assert Target(path, edit)[1..] == [];
      EditedFrame(config.fields, edit, q[0]);
    } else {
      var inner := Update(Child(config.fields, path[0]), path[1..], edit);
      GetSet(config.fields, path[0], inner, q[0]);
      assert Target(path, edit)[1..] == Target(path[1..], edit) && Target(path, edit)[0] == path[0];
      if q[0] == path[0] {
        var child := Child(config.fields, path[0]);
        if Get(config.fields, path[0]).None? { EmptyFind(path[1..]); }
        UpdateFrame(child, path[1..], edit, q[1..]);
      }
    }
  }

  lemma EmptyFind(path: Path)
    ensures Find(Obj([]), path) == if |path| == 0 then Ok(Some(Obj([]))) else Ok(None)
  {
  }

  lemma {:induction false} UpdateFind(config: Json, path: Path, edit: Edit)
    requires config.Obj? && Find(config, path).Ok?
    ensures var before := Find(config, path).value;
      var fields := if before.Some? then before.value.fields else [];
      Find(Update(config, path, edit), path) == Ok(Some(Obj(Edited(fields, edit))))
    decreases |path|
  {
    if |path| > 0 {
      var child := Child(config.fields, path[0]);
      GetSet(config.fields, path[0], Update(child, path[1..], edit), path[0]);
      if Get(config.fields, path[0]).None? { EmptyFind(path[1..]); }
      UpdateFind(child, path[1..], edit);
    }
  }

  /** Two edits at the same path are one edit there. */
  lemma {:induction false} UpdateTwice(config: Json, path: Path, first: Edit, second: Edit, both: Edit)
    requires config.Obj? && Find(config, path).Ok?
    requires var before := Find(config, path).value;
      var fields := if before.Some? then before.value.fields else [];
      Edited(Edited(fields, first), second) == Edited(fields, both)
    ensures Update(Update(config, path, first), path, second) == Update(config, path, both)
    decreases |path|
  {
    if |path| > 0 {
      var child := Child(config.fields, path[0]);
      var inner := Update(child, path[1..], first);
      GetSet(config.fields, path[0], inner, path[0]);
      if Get(config.fields, path[0]).None? { EmptyFind(path[1..]); }
      UpdateTwice(child, path[1..], first, second, both);
      SetTwice(config.fields, path[0], inner, Update(inner, path[1..], second));
    }
  }

  /** An edit that changes nothing changes nothing, when the object exists. */
  lemma {:induction false} UpdateNothing(config: Json, path: Path, edit: Edit)
    requires config.Obj? && Find(config, path).Ok? && Find(config, path).value.Some?
    requires Edited(Find(config, path).value.value.fields, edit) == Find(config, path).value.value.fields
    ensures Update(config, path, edit) == config
    decreases |path|
  {
    if |path| > 0 {
      UpdateNothing(Child(config.fields, path[0]), path[1..], edit);
      SetSame(config.fields, path[0]);
    }
  }

  // ----- ensureContainer -----

  lemma {:induction false} FindSplit(v: Json, path: Path, k: nat)
    requires v.Obj? && k <= |path| && Find(v, path[..k]).Ok? && Find(v, path[..k]).value.Some?
    ensures Find(v, path) == Find(Find(v, path[..k]).value.value, path[k..])
    decreases k
  {
    if k == 0 {
      assert path[0..] == path;
    } else {
      assert path[..k][0] == path[0] && path[..k][1..] == path[1..][..k - 1] && path[1..][k - 1..] == path[k..];
      FindSplit(Get(v.fields, path[0]).value, path[1..], k - 1);
    }
  }

  /** Creating the next missing object on the way does not change what creating them all gives. */
  lemma {:induction false} CreateStep(v: Json, path: Path, k: nat)
    requires v.Obj? && k < |path| && Find(v, path[..k]).Ok? && Find(v, path[..k]).value.Some?
    requires Get(Find(v, path[..k]).value.value.fields, path[k]).None?
    ensures Update(Update(v, path[..k], Put(path[k], Obj([]))), path, Keep) == Update(v, path, Keep)
    decreases k
  {
    if k == 0 {
      GetSet(v.fields, path[0], Obj([]), path[0]);
      SetTwice(v.fields, path[0], Obj([]), Update(Obj([]), path[1..], Keep));
    } else {
      var head, tail := path[0], path[1..];
      assert path[..k][0] == head && path[..k][1..] == tail[..k - 1] && tail[k - 1] == path[k];
      var child := Child(v.fields, head);
      var inner := Update(child, tail[..k - 1], Put(path[k], Obj([])));
      CreateStep(child, tail, k - 1);
      GetSet(v.fields, head, inner, head);
      SetTwice(v.fields, head, inner, Update(inner, tail, Keep));
    }
  }

  lemma FindStep(v: Json, path: Path, k: nat)
    requires v.Obj? && k < |path| && Find(v, path[..k]).Ok? && Find(v, path[..k]).value.Some?
    ensures var child := Get(Find(v, path[..k]).value.value.fields, path[k]);
      Find(v, path[..k + 1]) == if child.None? then Ok(None) else if child.value.Obj? then Ok(child) else Throws
    ensures var child := Get(Find(v, path[..k]).value.value.fields, path[k]);
      child.None? ==> Find(v, path) == Ok(None)
    ensures var child := Get(Find(v, path[..k]).value.value.fields, path[k]);
      child.Some? && !child.value.Obj? ==> Find(v, path).Throws?
  {
    FindSplit(v, path, k);
    var p := path[..k + 1];
    assert p[..k] == path[..k] && p[k..] == [path[k]];
    FindSplit(v, p, k);
  }

  /** `ensureContainer`: `next` is the config after it, and the container is found in it. */
  method EnsureContainer(config: Json, path: Path, create: bool) returns (next: Json, r: Result<Option<Json>>)
    requires config.Obj?
    ensures next.Obj? && (r.Throws? <==> Find(config, path).Throws?)
    ensures r.Ok? ==> r == Find(next, path) && next == if create then Update(config, path, Keep) else config
    ensures r.Ok? && create ==> r.value.Some?
  {
    hide Find, Update, SetField, Get;
    next := config;
    var cursor := config;
    FindHere(config);
    assert path[..0] == [];
    for i := 0 to |path|
      invariant next.Obj? && cursor.Obj? && (!create ==> next == config)
      invariant Find(next, path[..i]) == Ok(Some(cursor))
      invariant Update(next, path, Keep) == Update(config, path, Keep)
      invariant Find(next, path).Throws? <==> Find(config, path).Throws?
    {
      var segment := path[i];
      FindStep(next, path, i);
      if Get(cursor.fields, segment).None? {
        if !create { return next, Ok(None); }
        CreateStep(next, path, i);
        UpdateFind(next, path[..i], Put(segment, Obj([])));
        GetSet(cursor.fields, segment, Obj([]), segment);
        next := Update(next, path[..i], Put(segment, Obj([])));
        cursor := Obj(SetField(cursor.fields, segment, Obj([])));
        FindStep(next, path, i);
        CreatedFind(next, path, i);
      }
      var child := Get(cursor.fields, segment).value;
      if !child.Obj? { return next, Throws; }
      cursor := child;
    }
    assert path[..|path|] == path;
    UpdateNothing(next, path, Keep);
    r := Ok(Some(cursor));
  }

  lemma FindHere(config: Json)
    requires config.Obj?
    ensures Find(config, []) == Ok(Some(config))
  {
  }

  lemma CreatedFind(next: Json, path: Path, i: nat)
    requires next.Obj? && i < |path| && Find(next, path[..i]).Ok? && Find(next, path[..i]).value.Some?
    requires Get(Find(next, path[..i]).value.value.fields, path[i]) == Some(Obj([]))
    ensures Find(next, path).Ok?
  {
    FindSplit(next, path, i);
    EmptyFind(path[i..][1..]);
  }

  // ----- applyServer and removeServer -----

  function Apply(config: Json, path: Path, name: Text, entry: Json): (r: Result<Json>)
    requires config.Obj?
    ensures r.Ok? ==> r.value.Obj?
  {
    if Find(config, path).Throws? then Throws else Ok(Update(config, path, Put(name, entry)))
  }

  function Remove(config: Json, path: Path, name: Text): (r: Result<Json>)
    requires config.Obj?
    ensures r.Ok? ==> r.value.Obj?
  {
    match Find(config, path)
    case Throws => Throws
    case Ok(None) => Ok(config)
    case Ok(Some(container)) =>
      if Get(container.fields, name).None? then Ok(config) else Ok(Update(config, path, Drop(name)))
  }

  /** `applyServer`. */
  method ApplyServer(config: Json, path: Path, name: Text, entry: Json) returns (r: Result<Json>)
    requires config.Obj?
    ensures r == Apply(config, path, name, entry)
  {
    hide Find, Update;
    var next, container := EnsureContainer(config, path, true);
    if container.Throws? { return Throws; }
    UpdateTwice(config, path, Keep, Put(name, entry), Put(name, entry));
    r := Ok(Update(next, path, Put(name, entry)));
  }

  /** `removeServer`. */
  method RemoveServer(config: Json, path: Path, name: Text) returns (r: Result<Json>)
    requires config.Obj?
    ensures r == Remove(config, path, name)
  {
    hide Find, Update;
    var next, container := EnsureContainer(config, path, false);
    if container.Throws? { return Throws; }
    if container.value.None? || Get(container.value.value.fields, name).None? { return Ok(next); }
    r := Ok(Update(next, path, Drop(name)));
  }

  /** Connecting throws exactly when a member on the way is no object; else the entry is found where it was put. */
  lemma ApplyFound(config: Json, path: Path, name: Text, entry: Json)
    requires config.Obj? && Apply(config, path, name, entry).Ok?
    ensures var next := Apply(config, path, name, entry).value;
      var container := Find(next, path);
      container.Ok? && container.value.Some? && Get(container.value.value.fields, name) == Some(entry)
  {
    hide Update, Find;
    UpdateFind(config, path, Put(name, entry));
    var before := Find(config, path).value;
    GetSet(if before.Some? then before.value.fields else [], name, entry, name);
  }

  /** Connecting twice is connecting once. */
  lemma ApplyIdempotent(config: Json, path: Path, name: Text, entry: Json)
    requires config.Obj? && Apply(config, path, name, entry).Ok?
    ensures var next := Apply(config, path, name, entry).value;
      Apply(next, path, name, entry) == Ok(next)
  {
    hide Update, Find;
    ApplyFound(config, path, name, entry);
    var next := Apply(config, path, name, entry).value;
    SetSame(Find(next, path).value.value.fields, name);
    UpdateNothing(next, path, Put(name, entry));
  }

  /** Connecting and disconnecting keep every key at every level, the entry apart. */
  lemma ConnectFrame(config: Json, path: Path, name: Text, entry: Json, q: Path)
    requires config.Obj? && Diverge(path + [name], q)
    ensures Apply(config, path, name, entry).Ok? ==>
      LookAt(Apply(config, path, name, entry).value, q) == LookAt(config, q)
    ensures Remove(config, path, name).Ok? ==> LookAt(Remove(config, path, name).value, q) == LookAt(config, q)
  {
    if Find(config, path).Ok? {
      UpdateFrame(config, path, Put(name, entry), q);
      UpdateFrame(config, path, Drop(name), q);
    }
  }

  /** Disconnecting after connecting leaves the config as it was before without the entry, with the container
      created if it was missing. */
  lemma DisconnectAfterConnect(config: Json, path: Path, name: Text, entry: Json)
    requires config.Obj? && Apply(config, path, name, entry).Ok?
    ensures Remove(Apply(config, path, name, entry).value, path, name) == Ok(Update(config, path, Drop(name)))
  {
    hide Update, Find;
    ApplyFound(config, path, name, entry);
    var before := Find(config, path).value;
    var fields := if before.Some? then before.value.fields else [];
    RemoveSet(fields, name, entry);
    UpdateTwice(config, path, Put(name, entry), Drop(name), Drop(name));
  }

  /** Disconnecting undoes connecting exactly when the container existed and lacked the entry. */
  lemma DisconnectRestores(config: Json, path: Path, name: Text, entry: Json)
    requires config.Obj? && Apply(config, path, name, entry).Ok?
    ensures Remove(Apply(config, path, name, entry).value, path, name) == Ok(config) <==>
      Find(config, path).value.Some? && Get(Find(config, path).value.value.fields, name).None?
  {
    hide Update, Find;
    DisconnectAfterConnect(config, path, name, entry);
    UpdateFind(config, path, Drop(name));
    var before := Find(config, path).value;
    if before.Some? {
      var fields := before.value.fields;
      RemoveShrinks(fields, name);
      RemoveSet(fields, name, entry);
      if Get(fields, name).None? { UpdateNothing(config, path, Drop(name)); }
    }
  }
}
