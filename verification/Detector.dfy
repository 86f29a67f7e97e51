/** The connector detector, and how it agrees with the planner. */
module Detector {
  import opened JsText
  import opened Sorting
  import opened Json
  import opened CanonicalJson
  import opened Connectors

  // ----- When a plan changes the config -----

  lemma {:induction false} Reflexive(v: Json)
    requires WellFormed(v)
    ensures JsonEqual(v, v)
  {
    JsonEqualIsNormEqual(v, v);
  }

  lemma {:induction false} SetLength(fields: seq<Field>, key: Text, value: Json)
    ensures |SetField(fields, key, value)| == if Get(fields, key).Some? then |fields| else |fields| + 1
  {
    if |fields| > 0 && fields[0].key != key { SetLength(fields[1..], key, value); }
  }

  lemma DistinctMembers(fields: seq<Field>)
    requires WellFormed(Obj(fields))
    ensures DistinctKeys(KeyOf, fields)
  {
  }

  /** Assigning a member what it is already keeps an object the same, up to key order. */
  lemma SetEqual(fields: seq<Field>, key: Text, value: Json)
    requires WellFormed(Obj(fields)) && Get(fields, key).Some? && JsonEqual(Get(fields, key).value, value)
    ensures JsonEqual(Obj(fields), Obj(SetField(fields, key, value)))
  {
    hide SetField, WellFormed;
    var after := SetField(fields, key, value);
    DistinctMembers(fields);
    SetLength(fields, key, value);
    GetSet(fields, key, value, key);
    var at :| 0 <= at < |fields| && fields[at] == Field(key, Get(fields, key).value);
    forall i | 0 <= i < |fields|
      ensures Get(after, fields[i].key).Some? && JsonEqual(fields[i].value, Get(after, fields[i].key).value)
    {
      KeysApart(fields, i, at);
      if i != at { SetKeeps(fields, key, value, i); }
    }
  }

  lemma SetKeeps(fields: seq<Field>, key: Text, value: Json, i: nat)
    requires WellFormed(Obj(fields)) && i < |fields| && fields[i].key != key
    ensures var after := Get(SetField(fields, key, value), fields[i].key);
      after.Some? && JsonEqual(fields[i].value, after.value)
  {
    hide JsonEqual;
    GetSet(fields, key, value, fields[i].key);
    GetField(fields, i);
    Reflexive(fields[i].value);
  }

  /** And only then. */
  lemma SetEqualOnly(fields: seq<Field>, key: Text, value: Json)
    requires JsonEqual(Obj(fields), Obj(SetField(fields, key, value)))
    ensures Get(fields, key).Some? && JsonEqual(Get(fields, key).value, value)
  {
    SetLength(fields, key, value);
    GetSet(fields, key, value, key);
    var at :| 0 <= at < |fields| && fields[at] == Field(key, Get(fields, key).value);
    assert JsonEqual(fields[at].value, Get(SetField(fields, key, value), fields[at].key).value);
  }

  lemma {:induction false} UnchangedOnly(config: Json, path: Path, name: Text, entry: Json)
    requires config.Obj? && Find(config, path).Ok? && JsonEqual(config, Update(config, path, Put(name, entry)))
    ensures LookAt(config, path + [name]).Some? && JsonEqual(LookAt(config, path + [name]).value, entry)
    decreases |path|
  {
    hide JsonEqual;
    if |path| == 0 {
      assert path + [name] == [name] && [name][1..] == [];
      SetEqualOnly(config.fields, name, entry);
    } else {
      var child := Child(config.fields, path[0]);
      var q := path + [name];
      assert q[0] == path[0] && q[1..] == path[1..] + [name];
      SetEqualOnly(config.fields, path[0], Update(child, path[1..], Put(name, entry)));
      UnchangedOnly(child, path[1..], name, entry);
    }
  }

  lemma {:induction false} UnchangedIf(config: Json, path: Path, name: Text, entry: Json)
    requires config.Obj? && WellFormed(config) && Find(config, path).Ok?
    requires LookAt(config, path + [name]).Some? && JsonEqual(LookAt(config, path + [name]).value, entry)
    ensures JsonEqual(config, Update(config, path, Put(name, entry)))
    decreases |path|
  {
    hide JsonEqual;
    if |path| == 0 {
      assert path + [name] == [name] && [name][1..] == [];
      SetEqual(config.fields, name, entry);
    } else {
      var child := Child(config.fields, path[0]);
      var q := path + [name];
      assert q[0] == path[0] && q[1..] == path[1..] + [name];
      UnchangedIf(child, path[1..], name, entry);
      SetEqual(config.fields, path[0], Update(child, path[1..], Put(name, entry)));
    }
  }

  /** Connecting reports no change exactly when the entry is there already, up to key order. */
  lemma UnchangedExactly(config: Json, path: Path, name: Text, entry: Json)
    requires config.Obj? && WellFormed(config) && Find(config, path).Ok?
    ensures JsonEqual(config, Update(config, path, Put(name, entry))) <==>
      LookAt(config, path + [name]).Some? && JsonEqual(LookAt(config, path + [name]).value, entry)
  {
    hide JsonEqual, WellFormed, Update, LookAt, Find;
    var found := LookAt(config, path + [name]);
    if JsonEqual(config, Update(config, path, Put(name, entry))) { UnchangedOnly(config, path, name, entry); }
    if found.Some? && JsonEqual(found.value, entry) { UnchangedIf(config, path, name, entry); }
  }

  lemma {:induction false} FindLook(config: Json, path: Path, name: Text)
    requires config.Obj? && Find(config, path).Ok?
    ensures LookAt(config, path + [name])
         == if Find(config, path).value.None? then None else Get(Find(config, path).value.value.fields, name)
    decreases |path|
  {
    var q := path + [name];
    if |path| == 0 {
      assert q == [name] && q[1..] == [];
    } else {
      assert q[0] == path[0] && q[1..] == path[1..] + [name];
      if Get(config.fields, path[0]).Some? { FindLook(Get(config.fields, path[0]).value, path[1..], name); }
    }
  }

  // ----- The entry -----

  const COMMAND: Text := Lit("command")
  const ARGS: Text := Lit("args")
  const ENV: Text := Lit("env")
  const BUNDLE: Text := Lit("ENIGMA_BUNDLE")

  datatype Options = Options(command: Option<Text>, args: Option<seq<Json>>, serverEnv: Option<seq<Field>>,
    bundlePath: Option<Text>, processBundle: Option<Text>, defaultBundle: Text)

  /** Environment values as texts, without the null ones. */
  function StringEnv(fields: seq<Field>): seq<Field>
  {
    if |fields| == 0 then []
    else if fields[0].value.Null? then StringEnv(fields[1..])
    else [Field(fields[0].key, Str(ToText(fields[0].value)))] + StringEnv(fields[1..])
  }

  function StringArgs(args: seq<Json>): seq<Json>
  {
    seq(|args|, i requires 0 <= i < |args| => Str(ToText(args[i])))
  }

  function TextAt(fields: seq<Field>, key: Text): Option<Text>
  {
    match Get(fields, key)
    case Some(Str(s)) => Some(s)
    case _ => None
  }

  function OrElse(value: Option<Text>, fallback: Text): Text { if value.Some? then value.value else fallback }

  function BundlePath(o: Options): Text
  {
    var env := if o.serverEnv.Some? then StringEnv(o.serverEnv.value) else [];
    OrElse(o.bundlePath, OrElse(TextAt(env, BUNDLE), OrElse(o.processBundle, o.defaultBundle)))
  }

  function ExpectedEnv(o: Options): seq<Field>
  {
    SetField(if o.serverEnv.Some? then StringEnv(o.serverEnv.value) else [], BUNDLE, Str(BundlePath(o)))
  }

  function ExpectedArgs(o: Options): seq<Json> { if o.args.Some? then StringArgs(o.args.value) else [] }

  function ExpectedCommand(o: Options): Text { OrElse(o.command, Lit("enigma-mcp")) }

  /** `serverEntryFromOptions`. */
  function Entry(o: Options): Json
  {
    Obj([Field(COMMAND, Str(ExpectedCommand(o))), Field(ARGS, Arr(ExpectedArgs(o))), Field(ENV, Obj(ExpectedEnv(o)))])
  }

  // ----- The detector -----

  datatype State = State(installed: bool, commandOk: bool, argsOk: bool, bundleEnvPresent: bool, bundleEnvOk: bool,
    envOk: bool)

  /** What the detector sees of an entry. */
  function EntryState(entry: Json, o: Options): State
  {
    var args := match Property(entry, ARGS) case Some(Arr(items)) => StringArgs(items) case _ => [];
    var env := match Property(entry, ENV) case Some(Obj(fields)) => StringEnv(fields) case _ => [];
    var bundle := OrElse(TextAt(env, BUNDLE), []);
    State(true, Property(entry, COMMAND) == Some(Str(ExpectedCommand(o))), JsonEqual(Arr(args), Arr(ExpectedArgs(o))),
      |bundle| > 0, bundle == BundlePath(o), JsonEqual(Obj(env), Obj(ExpectedEnv(o))))
  }

  /** `installedState`. */
  function InstalledState(config: Json, path: Path, name: Text, o: Options): Result<State>
    requires config.Obj?
  {
    match Find(config, path)
    case Throws => Throws
    case Ok(None) => Ok(State(false, false, false, false, false, false))
    case Ok(Some(container)) =>
      match Get(container.fields, name)
      case Some(Obj(fields)) => Ok(EntryState(Obj(fields), o))
      case _ => Ok(State(false, false, false, false, false, false))
  }

  datatype Action = Repair | MissingClientConfig | Connect | AlreadyConfigured

  datatype ConfigError = InvalidJson | NotObject | Unreadable

  function RecommendedAction(exists_: bool, state: State, error: Option<ConfigError>): Action
  {
    if error.Some? then Repair
    else if !exists_ then MissingClientConfig
    else if !state.installed then Connect
    else if state.commandOk && state.argsOk && state.envOk then AlreadyConfigured
    else Repair
  }

  datatype Reason = ConfigJsonInvalid | ConfigJsonNotObject | ConfigUnreadable | ClientConfigMissing | ServerMissing
    | CommandMismatch | ArgsMismatch | BundleEnvMissing | BundleEnvMismatch | EnvMismatch

  /** `connectorRepairReasons`: of the three complaints about the environment only the first is reported. */
  method RepairReasons(exists_: bool, state: State, error: Option<ConfigError>) returns (reasons: seq<Reason>)
    ensures reasons == [] <==> (error.None? && exists_ && state.installed
      && state.commandOk && state.argsOk && state.bundleEnvPresent && state.bundleEnvOk && state.envOk)
    ensures error.None? && exists_ && state.installed ==>
      && (CommandMismatch in reasons <==> !state.commandOk) && (ArgsMismatch in reasons <==> !state.argsOk)
      && (BundleEnvMissing in reasons <==> !state.bundleEnvPresent)
      && (BundleEnvMismatch in reasons <==> state.bundleEnvPresent && !state.bundleEnvOk)
      && (EnvMismatch in reasons <==> state.bundleEnvPresent && state.bundleEnvOk && !state.envOk)
    ensures error == Some(InvalidJson) ==> reasons == [ConfigJsonInvalid]
    ensures error == Some(NotObject) ==> reasons == [ConfigJsonNotObject]
    ensures error == Some(Unreadable) ==> reasons == [ConfigUnreadable]
    ensures error.None? && !exists_ ==> reasons == [ClientConfigMissing]
    ensures error.None? && exists_ && !state.installed ==> reasons == [ServerMissing]
  {
    if error == Some(InvalidJson) { return [ConfigJsonInvalid]; }
    if error == Some(NotObject) { return [ConfigJsonNotObject]; }
    if error.Some? { return [ConfigUnreadable]; }
    if !exists_ { return [ClientConfigMissing]; }
    if !state.installed { return [ServerMissing]; }
    reasons := PushUnless([], state.commandOk, CommandMismatch);
    reasons := PushUnless(reasons, state.argsOk, ArgsMismatch);
    if !state.bundleEnvPresent {
      reasons := reasons + [BundleEnvMissing];
    } else if !state.bundleEnvOk {
      reasons := reasons + [BundleEnvMismatch];
    } else {
      reasons := PushUnless(reasons, state.envOk, EnvMismatch);
    }
  }

  // ----- Agreement -----

  /** Texts need no conversion. */
  lemma {:induction false} TextEnv(fields: seq<Field>)
    requires forall i :: 0 <= i < |fields| ==> fields[i].value.Str?
    ensures StringEnv(fields) == fields
  {
    if |fields| > 0 {
      TextEnv(fields[1..]);
      assert fields == [fields[0]] + fields[1..];
    }
  }

  lemma {:induction false} StringEnvTexts(fields: seq<Field>)
    ensures forall i :: 0 <= i < |StringEnv(fields)| ==> StringEnv(fields)[i].value.Str?
    ensures forall x :: x in StringEnv(fields) ==> exists i :: 0 <= i < |fields| && fields[i].key == x.key
  {
    if |fields| > 0 {
      StringEnvTexts(fields[1..]);
      forall x | x in StringEnv(fields) ensures exists i :: 0 <= i < |fields| && fields[i].key == x.key {
        if x in StringEnv(fields[1..]) {
          var i :| 0 <= i < |fields[1..]| && fields[1..][i].key == x.key;
          assert fields[i + 1].key == x.key;
        } else {
          assert fields[0].key == x.key;
        }
      }
    }
  }

  lemma {:induction false} SetTexts(fields: seq<Field>, key: Text, s: Text)
    requires forall i :: 0 <= i < |fields| ==> fields[i].value.Str?
    ensures forall i :: 0 <= i < |SetField(fields, key, Str(s))| ==> SetField(fields, key, Str(s))[i].value.Str?
  {
    if |fields| > 0 && fields[0].key != key { SetTexts(fields[1..], key, s); }
  }

  lemma ExpectedTexts(o: Options)
    ensures forall i :: 0 <= i < |ExpectedEnv(o)| ==> ExpectedEnv(o)[i].value.Str?
    ensures forall i :: 0 <= i < |ExpectedArgs(o)| ==> ExpectedArgs(o)[i].Str?
    ensures Get(ExpectedEnv(o), BUNDLE) == Some(Str(BundlePath(o)))
  {
    var env := if o.serverEnv.Some? then StringEnv(o.serverEnv.value) else [];
    if o.serverEnv.Some? { StringEnvTexts(o.serverEnv.value); }
    SetTexts(env, BUNDLE, BundlePath(o));
    GetSet(env, BUNDLE, Str(BundlePath(o)), BUNDLE);
  }

  lemma EntryProperties(o: Options)
    ensures Property(Entry(o), COMMAND) == Some(Str(ExpectedCommand(o)))
    ensures Property(Entry(o), ARGS) == Some(Arr(ExpectedArgs(o)))
    ensures Property(Entry(o), ENV) == Some(Obj(ExpectedEnv(o)))
  {
    var fs := Entry(o).fields;
    assert |COMMAND| == 7 && |ARGS| == 4 && |ENV| == 3;
    assert fs[1..][0] == fs[1] && fs[1..][1..][0] == fs[2];
  }

  /** An environment value as it is written: null and missing ones are left out, and the others become texts. */
  function Written(env: Option<seq<Field>>, key: Text): Option<Text>
  {
    if env.None? then None
    else match Get(env.value, key)
      case None => None
      case Some(Null) => None
      case Some(v) => Some(ToText(v))
  }

  lemma {:induction false} StringEnvGet(fields: seq<Field>, key: Text)
    requires DistinctKeys(KeyOf, fields)
    ensures Get(StringEnv(fields), key)
         == match Written(Some(fields), key) case None => None case Some(t) => Some(Str(t))
  {
    if |fields| > 0 {
      assert DistinctKeys(KeyOf, fields[1..]);
      StringEnvGet(fields[1..], key);
      var rest := StringEnv(fields[1..]);
      var first := Field(fields[0].key, Str(ToText(fields[0].value)));
      assert ([first] + rest)[1..] == rest;
      if fields[0].key == key && fields[0].value.Null? {
        assert forall j :: 0 < j < |fields| ==> KeyOf(fields[0]) != KeyOf(fields[j]);
        KeysGet(fields[1..], key);
      }
    }
  }

  /** What the written entry holds, key by key.  The bundle path is the one of the options, or else that of the server
      environment, or else that of the process environment, or else the default one. */
  lemma EntrySays(o: Options, key: Text)
    requires IsOptions(o)
    ensures var command, args, env :=
        Property(Entry(o), Lit("command")), Property(Entry(o), Lit("args")), Property(Entry(o), Lit("env"));
      && command == Some(Str(if o.command.Some? then o.command.value else Lit("enigma-mcp")))
      && args.Some? && args.value.Arr?
      && |args.value.items| == (if o.args.Some? then |o.args.value| else 0)
      && (forall i :: 0 <= i < |args.value.items| ==> args.value.items[i] == Str(ToText(o.args.value[i])))
      && env.Some?
      && Property(env.value, Lit("ENIGMA_BUNDLE"))
         == Some(Str(if o.bundlePath.Some? then o.bundlePath.value
                     else if Written(o.serverEnv, Lit("ENIGMA_BUNDLE")).Some?
                       then Written(o.serverEnv, Lit("ENIGMA_BUNDLE")).value
                     else if o.processBundle.Some? then o.processBundle.value
                     else o.defaultBundle))
      && (key != Lit("ENIGMA_BUNDLE") ==>
            Property(env.value, key)
            == match Written(o.serverEnv, key) case None => None case Some(t) => Some(Str(t)))
  {
    hide StringEnv, Written, SetField;
    EntryProperties(o);
    var env := if o.serverEnv.Some? then StringEnv(o.serverEnv.value) else [];
    GetSet(env, BUNDLE, Str(BundlePath(o)), BUNDLE);
    GetSet(env, BUNDLE, Str(BundlePath(o)), key);
    WrittenGet(o, BUNDLE);
    WrittenGet(o, key);
  }

  lemma WrittenGet(o: Options, key: Text)
    requires IsOptions(o)
    ensures var env := if o.serverEnv.Some? then StringEnv(o.serverEnv.value) else [];
      Get(env, key) == match Written(o.serverEnv, key) case None => None case Some(t) => Some(Str(t))
  {
    if o.serverEnv.Some? { StringEnvGet(o.serverEnv.value, key); }
  }

  lemma KeysCons(f: Field, fields: seq<Field>)
    ensures Keys([f] + fields) == {f.key} + Keys(fields)
  {
    var all := [f] + fields;
    assert all[0].key in Keys(all);
    forall k | k in Keys(fields) ensures k in Keys(all) {
      var i :| 0 <= i < |fields| && fields[i].key == k;
      assert all[i + 1].key == k;
    }
  }

  lemma DistinctCons(f: Field, fields: seq<Field>)
    requires DistinctKeys(KeyOf, fields) && f.key !in Keys(fields)
    ensures DistinctKeys(KeyOf, [f] + fields)
  {
    var all := [f] + fields;
    forall i, j | 0 <= i < j < |all| ensures KeyOf(all[i]) != KeyOf(all[j]) {
      if i > 0 {
        assert KeyOf(fields[i - 1]) != KeyOf(fields[j - 1]);
      } else {
        assert fields[j - 1].key in Keys(fields);
      }
    }
  }

  lemma DistinctTail(fields: seq<Field>)
    requires DistinctKeys(KeyOf, fields) && |fields| > 0
    ensures DistinctKeys(KeyOf, fields[1..]) && fields[0].key !in Keys(fields[1..])
    ensures Keys(fields) == {fields[0].key} + Keys(fields[1..])
  {
    KeysCons(fields[0], fields[1..]);
    assert fields == [fields[0]] + fields[1..];
    assert forall j :: 0 < j < |fields| ==> KeyOf(fields[0]) != KeyOf(fields[j]);
  }

  lemma {:induction false} StringEnvDistinct(fields: seq<Field>)
    requires DistinctKeys(KeyOf, fields)
    ensures DistinctKeys(KeyOf, StringEnv(fields)) && Keys(StringEnv(fields)) <= Keys(fields)
  {
    if |fields| > 0 {
      hide DistinctKeys, Keys;
      DistinctTail(fields);
      var rest := StringEnv(fields[1..]);
      StringEnvDistinct(fields[1..]);
      if !fields[0].value.Null? {
        var f := Field(fields[0].key, Str(ToText(fields[0].value)));
        DistinctCons(f, rest);
        KeysCons(f, rest);
      }
    }
  }

  lemma {:induction false} SetDistinct(fields: seq<Field>, key: Text, value: Json)
    requires DistinctKeys(KeyOf, fields)
    ensures DistinctKeys(KeyOf, SetField(fields, key, value))
      && Keys(SetField(fields, key, value)) <= Keys(fields) + {key}
  {
    if |fields| > 0 {
      hide DistinctKeys, Keys;
      DistinctTail(fields);
      if fields[0].key == key {
        DistinctCons(Field(key, value), fields[1..]);
        KeysCons(Field(key, value), fields[1..]);
      } else {
        var rest := SetField(fields[1..], key, value);
        SetDistinct(fields[1..], key, value);
        DistinctCons(fields[0], rest);
        KeysCons(fields[0], rest);
      }
    }
  }

  /** Options whose environment is a JavaScript object. */
  ghost predicate IsOptions(o: Options) { o.serverEnv.Some? ==> DistinctKeys(KeyOf, o.serverEnv.value) }

  lemma EntryWellFormed(o: Options)
    requires IsOptions(o)
    ensures WellFormed(Obj(ExpectedEnv(o))) && WellFormed(Entry(o))
  {
    var env := if o.serverEnv.Some? then StringEnv(o.serverEnv.value) else [];
    if o.serverEnv.Some? { StringEnvDistinct(o.serverEnv.value); }
    SetDistinct(env, BUNDLE, Str(BundlePath(o)));
    ExpectedTexts(o);
    assert WellFormed(Obj(ExpectedEnv(o)));
    assert |COMMAND| == 7 && |ARGS| == 4 && |ENV| == 3;
    assert DistinctKeys(KeyOf, Entry(o).fields);
    assert WellFormed(Arr(ExpectedArgs(o)));
  }

  lemma EqualTextFields(fs: seq<Field>, gs: seq<Field>)
    requires JsonEqual(Obj(fs), Obj(gs)) && forall i :: 0 <= i < |gs| ==> gs[i].value.Str?
    ensures StringEnv(fs) == fs
  {
    forall i | 0 <= i < |fs| ensures fs[i].value.Str? {
      var w := Get(gs, fs[i].key);
      assert Field(fs[i].key, w.value) in gs && JsonEqual(fs[i].value, w.value);
      if fs[i].value.Arr? || fs[i].value.Obj? { assert false; }
    }
    TextEnv(fs);
  }

  lemma EqualTexts(xs: seq<Json>, ys: seq<Json>)
    requires JsonEqual(Arr(xs), Arr(ys)) && forall i :: 0 <= i < |ys| ==> ys[i].Str?
    ensures StringArgs(xs) == xs
  {
    forall i | 0 <= i < |xs| ensures xs[i] == Str(ToText(xs[i])) {
      assert JsonEqual(xs[i], ys[i]);
      if xs[i].Arr? || xs[i].Obj? { assert false; }
    }
  }

  function Configured(o: Options): State { State(true, true, true, |BundlePath(o)| > 0, true, true) }

  lemma EqualText(v: Json, s: Text)
    ensures JsonEqual(v, Str(s)) <==> v == Str(s)
  {
  }

  lemma EqualKinds(v: Json, w: Json)
    requires JsonEqual(v, w)
    ensures v.Arr? == w.Arr? && v.Obj? == w.Obj?
  {
  }

  /** An entry that equals the expected one up to key order satisfies every check. */
  lemma EqualEntryState(entry: Json, o: Options)
    requires IsOptions(o) && WellFormed(entry) && JsonEqual(entry, Entry(o))
    ensures EntryState(entry, o) == Configured(o)
  {
    hide JsonEqual, WellFormed, StringEnv, StringArgs, ExpectedEnv, ExpectedArgs, ExpectedCommand, BundlePath, Entry,
      Get;
    EntryWellFormed(o);
    EntryProperties(o);
    ExpectedTexts(o);
    EqualProps(entry, Entry(o), COMMAND);
    EqualProps(entry, Entry(o), ARGS);
    EqualProps(entry, Entry(o), ENV);
    EqualText(Property(entry, COMMAND).value, ExpectedCommand(o));
    var args, env := Property(entry, ARGS).value, Property(entry, ENV).value;
    EqualKinds(args, Arr(ExpectedArgs(o)));
    EqualKinds(env, Obj(ExpectedEnv(o)));
    EqualTexts(args.items, ExpectedArgs(o));
    EqualTextFields(env.fields, ExpectedEnv(o));
    PropertyWellFormed(entry, ENV);
    EqualProps(env, Obj(ExpectedEnv(o)), BUNDLE);
    EqualText(Property(env, BUNDLE).value, BundlePath(o));
  }

  /** After connecting, the detector reports a configured client; only an empty bundle path is still a reason to
      repair. */
  lemma ConnectedIsConfigured(config: Json, path: Path, name: Text, o: Options)
    requires config.Obj? && IsOptions(o) && Apply(config, path, name, Entry(o)).Ok?
    ensures var state := InstalledState(Apply(config, path, name, Entry(o)).value, path, name, o);
      state == Ok(Configured(o)) && RecommendedAction(true, state.value, None) == AlreadyConfigured
  {
    hide Find, EntryState, Apply, JsonEqual, WellFormed;
    ApplyFound(config, path, name, Entry(o));
    EntryWellFormed(o);
    Reflexive(Entry(o));
    EqualEntryState(Entry(o), o);
  }

  /** When connecting would change nothing, the detector already reports a configured client. */
  lemma UnchangedIsConfigured(config: Json, path: Path, name: Text, o: Options)
    requires config.Obj? && WellFormed(config) && IsOptions(o) && Apply(config, path, name, Entry(o)).Ok?
    requires JsonEqual(config, Apply(config, path, name, Entry(o)).value)
    ensures InstalledState(config, path, name, o) == Ok(Configured(o))
  {
    hide Find, EntryState, JsonEqual, WellFormed, Update, Get, LookAt;
    UnchangedExactly(config, path, name, Entry(o));
    FindLook(config, path, name);
    var container := Find(config, path).value.value;
    FindWellFormed(config, path);
    var entry := Get(container.fields, name).value;
    EqualKinds(entry, Entry(o));
    EqualEntryState(entry, o);
  }

  lemma {:induction false} FindWellFormed(config: Json, path: Path)
    requires config.Obj? && WellFormed(config) && Find(config, path).Ok? && Find(config, path).value.Some?
    ensures WellFormed(Find(config, path).value.value)
    decreases |path|
  {
    if |path| > 0 {
      FindWellFormed(Get(config.fields, path[0]).value, path[1..]);
    }
  }

  // ----- What the detector checks -----

  /** What is recommended: repair for an unreadable config or a differing entry, else what is missing. */
  lemma ActionExactly(exists_: bool, state: State, error: Option<ConfigError>)
    ensures var action := RecommendedAction(exists_, state, error);
      var passes := state.commandOk && state.argsOk && state.envOk;
      && (action == Repair <==> error.Some? || (exists_ && state.installed && !passes))
      && (action == MissingClientConfig <==> error.None? && !exists_)
      && (action == Connect <==> error.None? && exists_ && !state.installed)
      && (action == AlreadyConfigured <==> error.None? && exists_ && state.installed && passes)
  {
  }

  /** An entry counts as installed exactly when there is an object at its path. */
  lemma InstalledExactly(config: Json, path: Path, name: Text, o: Options)
    requires config.Obj? && Find(config, path).Ok?
    ensures InstalledState(config, path, name, o).Ok?
    ensures var state, entry := InstalledState(config, path, name, o).value, LookAt(config, path + [name]);
      && (state.installed <==> entry.Some? && entry.value.Obj?)
      && (state.installed ==> state == EntryState(entry.value, o))
      && (!state.installed ==> state == State(false, false, false, false, false, false))
  {
    hide EntryState, Find, LookAt;
    FindLook(config, path, name);
    if Find(config, path).value.Some? {
      var entry := Get(Find(config, path).value.value.fields, name);
      if entry.Some? && entry.value.Obj? { StateInstalled(entry.value, o); }
    }
  }

  lemma StateInstalled(entry: Json, o: Options)
    ensures EntryState(entry, o).installed
  {
    hide StringEnv, StringArgs, JsonEqual, ExpectedEnv, ExpectedArgs, BundlePath;
  }

  /** The environment of an entry, if it is an object. */
  function EnvOf(entry: Json): Option<seq<Field>>
  {
    match Property(entry, Lit("env"))
    case Some(Obj(fields)) => Some(fields)
    case _ => None
  }

  /** The arguments of an entry, if they are an array. */
  function ArgsOf(entry: Json): seq<Json>
  {
    match Property(entry, Lit("args"))
    case Some(Arr(items)) => items
    case _ => []
  }

  lemma TextObjectsOnly(fs: seq<Field>, gs: seq<Field>, key: Text)
    requires WellFormed(Obj(fs)) && WellFormed(Obj(gs)) && JsonEqual(Obj(fs), Obj(gs))
    requires forall i :: 0 <= i < |gs| ==> gs[i].value.Str?
    ensures Get(fs, key) == Get(gs, key)
  {
    hide JsonEqual, Get, WellFormed;
    EqualProps(Obj(fs), Obj(gs), key);
    if Get(fs, key).Some? {
      TextAtKey(gs, key);
      assert Get(gs, key).value == Str(Get(gs, key).value.s);
      EqualText(Get(fs, key).value, Get(gs, key).value.s);
    }
  }

  lemma TextObjectsIf(fs: seq<Field>, gs: seq<Field>)
    requires WellFormed(Obj(fs)) && WellFormed(Obj(gs))
    requires forall key :: Get(fs, key) == Get(gs, key)
    ensures JsonEqual(Obj(fs), Obj(gs))
  {
    hide JsonEqual, Get, WellFormed;
    forall key ensures Property(Obj(fs), key) == Property(Obj(gs), key) { assert Get(fs, key) == Get(gs, key); }
    SamePropertiesNorm(Obj(fs), Obj(gs));
    JsonEqualIsNormEqual(Obj(fs), Obj(gs));
  }

  lemma TextAtKey(fields: seq<Field>, key: Text)
    requires Get(fields, key).Some? && forall i :: 0 <= i < |fields| ==> fields[i].value.Str?
    ensures Get(fields, key).value.Str?
  {
  }

  /** What the detector compares: the command as it stands, arguments and environment values as texts, where null values
      do not count, and the bundle path, which is empty if it is not there. */
  lemma StateExactly(entry: Json, o: Options)
    requires IsOptions(o) && WellFormed(entry)
    ensures var state, expected := EntryState(entry, o), Entry(o);
      var bundle := OrElse(Written(EnvOf(entry), Lit("ENIGMA_BUNDLE")), []);
      && (state.commandOk <==> Property(entry, Lit("command")) == Property(expected, Lit("command")))
      && (state.argsOk <==>
            && |ArgsOf(entry)| == |ArgsOf(expected)|
            && forall i :: 0 <= i < |ArgsOf(entry)| ==> ToText(ArgsOf(entry)[i]) == ToText(ArgsOf(expected)[i]))
      && (state.envOk <==> forall key :: Written(EnvOf(entry), key) == Written(EnvOf(expected), key))
      && (state.bundleEnvPresent <==> bundle != [])
      && (state.bundleEnvOk <==> Some(bundle) == Written(EnvOf(expected), Lit("ENIGMA_BUNDLE")))
  {
    hide JsonEqual, WellFormed, StringEnv, StringArgs, Written, ExpectedEnv, BundlePath, ToText, Get, ExpectedArgs,
      ExpectedCommand, TextAt;
    EntryProperties(o);
    ExpectedWritten(o);
    EnvExactly(entry, o);
    BundleExactly(entry, o);
    NoArgs();
    ExpectedTexts(o);
    ArgsAlike(ArgsOf(entry), ExpectedArgs(o));
  }

  lemma NoArgs()
    ensures StringArgs([]) == []
  {
  }

  function TextEnvOf(entry: Json): seq<Field>
  {
    if EnvOf(entry).Some? then StringEnv(EnvOf(entry).value) else []
  }

  lemma EnvExactly(entry: Json, o: Options)
    requires IsOptions(o) && WellFormed(entry)
    ensures JsonEqual(Obj(TextEnvOf(entry)), Obj(ExpectedEnv(o))) <==>
      forall key :: Written(EnvOf(entry), key) == Written(EnvOf(Entry(o)), key)
  {
    hide JsonEqual, WellFormed, StringEnv, Written, ExpectedEnv, Get, Entry, TextEnvOf, EnvOf;
    var env, expected := TextEnvOf(entry), ExpectedEnv(o);
    EnvTexts(entry);
    ExpectedWritten(o);
    ExpectedTexts(o);
    EntryWellFormed(o);
    if JsonEqual(Obj(env), Obj(expected)) {
      forall key ensures Written(EnvOf(entry), key) == Written(EnvOf(Entry(o)), key) {
        TextObjectsOnly(env, expected, key);
      }
    }
    if forall key :: Written(EnvOf(entry), key) == Written(EnvOf(Entry(o)), key) {
      forall key ensures Get(env, key) == Get(expected, key) {
        assert Written(EnvOf(entry), key) == Written(EnvOf(Entry(o)), key);
      }
      TextObjectsIf(env, expected);
    }
  }

  lemma BundleExactly(entry: Json, o: Options)
    requires IsOptions(o) && WellFormed(entry)
    ensures TextAt(TextEnvOf(entry), BUNDLE) == Written(EnvOf(entry), BUNDLE)
    ensures Written(EnvOf(Entry(o)), BUNDLE) == Some(BundlePath(o))
  {
    hide WellFormed, StringEnv, Written, ExpectedEnv, Get, Entry, TextEnvOf, EnvOf, BundlePath;
    EnvTexts(entry);
    ExpectedWritten(o);
    ExpectedTexts(o);
  }

  lemma ArgsAlike(args: seq<Json>, expected: seq<Json>)
    requires forall i :: 0 <= i < |expected| ==> expected[i].Str?
    ensures JsonEqual(Arr(StringArgs(args)), Arr(expected)) <==>
      |args| == |expected| && forall i :: 0 <= i < |args| ==> ToText(args[i]) == ToText(expected[i])
  {
    forall i | 0 <= i < |expected| ensures ToText(expected[i]) == expected[i].s { ToTextMeaning(expected[i]); }
    hide ToText;
  }

  /** The environment of an entry as texts. */
  lemma EnvTexts(entry: Json)
    requires WellFormed(entry)
    ensures WellFormed(Obj(TextEnvOf(entry)))
    ensures forall key ::
      Get(TextEnvOf(entry), key)
      == match Written(EnvOf(entry), key) case None => None case Some(t) => Some(Str(t))
  {
    hide StringEnv, Written;
    if EnvOf(entry).Some? {
      PropertyWellFormed(entry, Lit("env"));
      var fields := EnvOf(entry).value;
      DistinctMembers(fields);
      StringEnvDistinct(fields);
      StringEnvTexts(fields);
      forall key ensures Get(StringEnv(fields), key)
        == match Written(Some(fields), key) case None => None case Some(t) => Some(Str(t))
      {
        StringEnvGet(fields, key);
      }
    } else {
      NothingWritten();
    }
  }

  lemma NothingWritten()
    ensures forall key :: Written(None, key) == None
  {
  }

  /** The expected environment holds texts already. */
  lemma ExpectedWritten(o: Options)
    requires IsOptions(o)
    ensures EnvOf(Entry(o)) == Some(ExpectedEnv(o)) && ArgsOf(Entry(o)) == ExpectedArgs(o)
    ensures forall key ::
      Get(ExpectedEnv(o), key) == match Written(EnvOf(Entry(o)), key) case None => None case Some(t) => Some(Str(t))
  {
    hide ExpectedEnv, ExpectedArgs, StringEnv, WellFormed, Get, Written;
    EntryProperties(o);
    ExpectedTexts(o);
    EntryWellFormed(o);
    TextEnv(ExpectedEnv(o));
    DistinctMembers(ExpectedEnv(o));
    forall key ensures Get(ExpectedEnv(o), key)
      == match Written(Some(ExpectedEnv(o)), key) case None => None case Some(t) => Some(Str(t))
    {
      StringEnvGet(ExpectedEnv(o), key);
    }
  }

  // ----- Exactly when planner and detector agree -----

  predicate IsTextArray(v: Option<Json>)
  {
    v.Some? && v.value.Arr? && forall i :: 0 <= i < |v.value.items| ==> v.value.items[i].Str?
  }

  predicate IsTextObject(v: Option<Json>)
  {
    v.Some? && v.value.Obj? && forall i :: 0 <= i < |v.value.fields| ==> v.value.fields[i].value.Str?
  }

  /** An entry in the form in which the planner writes it: three keys, arguments and environment as texts. */
  ghost predicate IsPlainEntry(e: Json)
  {
    && e.Obj? && Keys(e.fields) == {COMMAND, ARGS, ENV}
    && IsTextArray(Property(e, ARGS)) && IsTextObject(Property(e, ENV))
  }

  predicate Passes(s: State) { s.commandOk && s.argsOk && s.envOk }

  lemma {:induction false} EntryKeys(o: Options)
    ensures Keys(Entry(o).fields) == {COMMAND, ARGS, ENV} && |Entry(o).fields| == 3
  {
    hide ExpectedEnv, ExpectedArgs, ExpectedCommand;
    var fs := Entry(o).fields;
    assert fs[0].key == COMMAND && fs[1].key == ARGS && fs[2].key == ENV;
  }

  lemma {:induction false} TextEnvOnly(fields: seq<Field>)
    requires StringEnv(fields) == fields
    ensures forall i :: 0 <= i < |fields| ==> fields[i].value.Str?
  {
    StringEnvTexts(fields);
  }

  lemma TextArgs(items: seq<Json>)
    requires forall i :: 0 <= i < |items| ==> items[i].Str?
    ensures StringArgs(items) == items
  {
  }

  /** Objects with as many keys whose members are equal key by key are equal. */
  lemma EqualByKeys(fs: seq<Field>, gs: seq<Field>)
    requires DistinctKeys(KeyOf, fs) && |fs| == |gs|
    requires forall k :: k in Keys(fs) ==>
      Get(fs, k).Some? && Get(gs, k).Some? && JsonEqual(Get(fs, k).value, Get(gs, k).value)
    ensures JsonEqual(Obj(fs), Obj(gs))
  {
    forall i | 0 <= i < |fs| ensures Get(gs, fs[i].key).Some? && JsonEqual(fs[i].value, Get(gs, fs[i].key).value) {
      hide JsonEqual;
      assert fs[i].key in Keys(fs);
      GetField(fs, i);
    }
  }

  lemma PassingMembers(e: Json, o: Options)
    requires IsPlainEntry(e) && Passes(EntryState(e, o))
    ensures Property(e, COMMAND).Some? && JsonEqual(Property(e, COMMAND).value, Str(ExpectedCommand(o)))
    ensures Property(e, ARGS).Some? && JsonEqual(Property(e, ARGS).value, Arr(ExpectedArgs(o)))
    ensures Property(e, ENV).Some? && JsonEqual(Property(e, ENV).value, Obj(ExpectedEnv(o)))
  {
    hide StringEnv, StringArgs, ExpectedEnv, ExpectedArgs, ExpectedCommand, BundlePath, Property, JsonEqual;
    TextArgs(Property(e, ARGS).value.items);
    TextEnv(Property(e, ENV).value.fields);
    EqualText(Str(ExpectedCommand(o)), ExpectedCommand(o));
  }

  /** A plain entry that passes the checks of the detector is the expected one. */
  lemma PassingEntryEqual(e: Json, o: Options)
    requires IsOptions(o) && WellFormed(e) && IsPlainEntry(e) && Passes(EntryState(e, o))
    ensures JsonEqual(e, Entry(o))
  {
    hide WellFormed, JsonEqual, EntryState, ExpectedEnv, ExpectedArgs, ExpectedCommand, Entry, Get, Passes;
    EntryIsObject(o);
    EntryKeys(o);
    EntryProperties(o);
    PassingMembers(e, o);
    DistinctMembers(e.fields);
    KeysCardinality(e.fields);
    ThreeKeys();
    EqualByKeys(e.fields, Entry(o).fields);
  }

  lemma ThreeKeys()
    ensures |{COMMAND, ARGS, ENV}| == 3
  {
    assert |COMMAND| == 7 && |ARGS| == 4 && |ENV| == 3;
  }

  /** The expected entry, up to key order, is plain. */
  lemma EqualEntryPlain(e: Json, o: Options)
    requires IsOptions(o) && WellFormed(e) && JsonEqual(e, Entry(o))
    ensures IsPlainEntry(e)
  {
    hide WellFormed, StringEnv, StringArgs, ExpectedEnv, ExpectedArgs, ExpectedCommand, BundlePath, Entry;
    EntryKeys(o);
    EntryWellFormed(o);
    EntryProperties(o);
    ExpectedTexts(o);
    EqualKeys(e, Entry(o));
    EqualProps(e, Entry(o), ARGS);
    EqualProps(e, Entry(o), ENV);
    var args, env := Property(e, ARGS).value, Property(e, ENV).value;
    EqualKinds(args, Arr(ExpectedArgs(o)));
    EqualKinds(env, Obj(ExpectedEnv(o)));
    EqualTexts(args.items, ExpectedArgs(o));
    assert forall i :: 0 <= i < |args.items| ==> StringArgs(args.items)[i] == args.items[i];
    ArgsAreTexts(args.items);
    EqualTextFields(env.fields, ExpectedEnv(o));
    TextEnvOnly(env.fields);
  }

  lemma ArgsAreTexts(items: seq<Json>)
    requires StringArgs(items) == items
    ensures forall i :: 0 <= i < |items| ==> items[i].Str?
  {
    assert forall i :: 0 <= i < |items| ==> StringArgs(items)[i].Str?;
  }

  lemma EqualKeys(v: Json, w: Json)
    requires WellFormed(v) && WellFormed(w) && JsonEqual(v, w) && w.Obj?
    ensures v.Obj? && Keys(v.fields) == Keys(w.fields)
  {
    hide WellFormed, JsonEqual;
    EqualKinds(v, w);
    forall k ensures k in Keys(v.fields) <==> k in Keys(w.fields) {
      EqualProps(v, w, k);
      KeysGet(v.fields, k);
      KeysGet(w.fields, k);
    }
  }

  /** Connecting changes nothing exactly when the detector reports a configured client and the entry is written the
      way the planner writes it. */
  lemma AgreeExactly(config: Json, path: Path, name: Text, o: Options)
    requires config.Obj? && WellFormed(config) && IsOptions(o) && Find(config, path).Ok?
    ensures var state, entry := InstalledState(config, path, name, o), LookAt(config, path + [name]);
      JsonEqual(config, Apply(config, path, name, Entry(o)).value) <==>
        (RecommendedAction(true, state.value, None) == AlreadyConfigured && entry.Some? && IsPlainEntry(entry.value))
  {
    hide Find, EntryState, JsonEqual, WellFormed, Update, Get, LookAt, IsPlainEntry, Entry;
    UnchangedExactly(config, path, name, Entry(o));
    FindLook(config, path, name);
    var entry := LookAt(config, path + [name]);
    if entry.Some? {
      FindWellFormed(config, path);
      FoundWellFormed(Find(config, path).value.value, name);
      PlainIsObject(entry.value);
      EntryIsObject(o);
      if JsonEqual(entry.value, Entry(o)) {
        EqualKinds(entry.value, Entry(o));
        EqualEntryState(entry.value, o);
        EqualEntryPlain(entry.value, o);
      }
      if entry.value.Obj? && IsPlainEntry(entry.value) && Passes(EntryState(entry.value, o)) {
        PassingEntryEqual(entry.value, o);
      }
    }
  }

  lemma FoundWellFormed(container: Json, name: Text)
    requires container.Obj? && WellFormed(container) && Get(container.fields, name).Some?
    ensures WellFormed(Get(container.fields, name).value)
  {
  }

  lemma PlainIsObject(e: Json)
    ensures IsPlainEntry(e) ==> e.Obj?
  {
  }

  lemma EntryIsObject(o: Options)
    ensures Entry(o).Obj?
  {
  }

  /** After disconnecting, the detector reports that the client is not connected. */
  lemma DisconnectedIsMissing(config: Json, path: Path, name: Text, o: Options)
    requires config.Obj? && WellFormed(config) && Remove(config, path, name).Ok?
    ensures var state := InstalledState(Remove(config, path, name).value, path, name, o);
      state == Ok(State(false, false, false, false, false, false))
      && RecommendedAction(true, state.value, None) == Connect
  {
    hide EntryState, JsonEqual, WellFormed, Update;
    if Find(config, path).value.Some? {
      FindWellFormed(config, path);
      var fields := Find(config, path).value.value.fields;
      DistinctMembers(fields);
      GetRemoved(fields, name);
      UpdateFind(config, path, Drop(name));
    }
  }

  lemma {:induction false} GetRemoved(fields: seq<Field>, key: Text)
    requires DistinctKeys(KeyOf, fields)
    ensures Get(RemoveField(fields, key), key).None?
  {
    if |fields| > 0 {
      if fields[0].key == key {
        KeysGet(fields[1..], key);
      } else {
        GetRemoved(fields[1..], key);
        assert RemoveField(fields, key)[1..] == RemoveField(fields[1..], key);
      }
    }
  }

  /** The converse of `UnchangedIsConfigured` fails: the detector does not look at other keys of the entry, but
      connecting removes them. */
  lemma DetectorIgnoresExtraKeys(path: Path, name: Text, o: Options, extra: Field)
    requires IsOptions(o) && extra.key !in {COMMAND, ARGS, ENV}
    ensures var config := Update(Obj([]), path, Put(name, Obj(Entry(o).fields + [extra])));
      && InstalledState(config, path, name, o) == Ok(Configured(o))
      && Apply(config, path, name, Entry(o)).Ok? && !JsonEqual(config, Apply(config, path, name, Entry(o)).value)
  {
    hide JsonEqual, WellFormed, Update, LookAt, EntryState, ExpectedEnv, ExpectedArgs, ExpectedCommand, Find;
    var entry := Obj(Entry(o).fields + [extra]);
    var config := Update(Obj([]), path, Put(name, entry));
    EmptyFind(path);
    ApplyFound(Obj([]), path, name, entry);
    ExtraProperties(o, extra);
    EntryWellFormed(o);
    Reflexive(Entry(o));
    EqualEntryState(Entry(o), o);
    EntryProperties(o);
    SameState(entry, Entry(o), o);
    LongerDiffers(Entry(o).fields, extra);
    FindLook(config, path, name);
    if JsonEqual(config, Apply(config, path, name, Entry(o)).value) { UnchangedOnly(config, path, name, Entry(o)); }
  }

  /** Nor does it miss the arguments when none are expected, although connecting writes an empty list. */
  lemma DetectorMissesArgs(path: Path, name: Text, o: Options)
    requires IsOptions(o) && ExpectedArgs(o) == []
    ensures var entry := Obj([Field(COMMAND, Str(ExpectedCommand(o))), Field(ENV, Obj(ExpectedEnv(o)))]);
      var config := Update(Obj([]), path, Put(name, entry));
      && InstalledState(config, path, name, o) == Ok(Configured(o))
      && Apply(config, path, name, Entry(o)).Ok? && !JsonEqual(config, Apply(config, path, name, Entry(o)).value)
  {
    hide WellFormed, Update, LookAt, EntryState, ExpectedEnv, ExpectedArgs, ExpectedCommand, Find, Entry;
    var entry := Obj([Field(COMMAND, Str(ExpectedCommand(o))), Field(ENV, Obj(ExpectedEnv(o)))]);
    var config := Update(Obj([]), path, Put(name, entry));
    EmptyFind(path);
    ApplyFound(Obj([]), path, name, entry);
    NoArgsState(o);
    FindLook(config, path, name);
    EntryKeys(o);
    EntryIsObject(o);
    assert !JsonEqual(entry, Entry(o));
    if JsonEqual(config, Apply(config, path, name, Entry(o)).value) { UnchangedOnly(config, path, name, Entry(o)); }
  }

  lemma NoArgsState(o: Options)
    requires IsOptions(o) && ExpectedArgs(o) == []
    ensures EntryState(Obj([Field(COMMAND, Str(ExpectedCommand(o))), Field(ENV, Obj(ExpectedEnv(o)))]), o)
      == Configured(o)
  {
    hide ExpectedEnv, ExpectedArgs, ExpectedCommand, StringEnv, WellFormed;
    var fs := [Field(COMMAND, Str(ExpectedCommand(o))), Field(ENV, Obj(ExpectedEnv(o)))];
    assert |COMMAND| == 7 && |ARGS| == 4 && |ENV| == 3;
    GetOfTwo(fs[0], fs[1]);
    KeysGet(fs, ARGS);
    ExpectedTexts(o);
    TextEnv(ExpectedEnv(o));
    EntryWellFormed(o);
    Reflexive(Obj(ExpectedEnv(o)));
  }

  lemma LongerDiffers(fields: seq<Field>, extra: Field)
    ensures !JsonEqual(Obj(fields + [extra]), Obj(fields))
  {
  }

  lemma SameState(a: Json, b: Json, o: Options)
    requires forall k :: k in {COMMAND, ARGS, ENV} ==> Property(a, k) == Property(b, k)
    ensures EntryState(a, o) == EntryState(b, o)
  {
    hide Property, JsonEqual;
    assert Property(a, COMMAND) == Property(b, COMMAND) && Property(a, ARGS) == Property(b, ARGS)
      && Property(a, ENV) == Property(b, ENV);
  }

  lemma ExtraProperties(o: Options, extra: Field)
    requires extra.key !in {COMMAND, ARGS, ENV}
    ensures forall k :: k in {COMMAND, ARGS, ENV} ==>
      Property(Obj(Entry(o).fields + [extra]), k) == Property(Entry(o), k)
  {
    forall k | k in {COMMAND, ARGS, ENV} ensures Get(Entry(o).fields + [extra], k) == Get(Entry(o).fields, k) {
      GetAppend(Entry(o).fields, extra, k);
    }
  }

  lemma {:induction false} GetAppend(fields: seq<Field>, extra: Field, k: Text)
    requires k != extra.key
    ensures Get(fields + [extra], k) == Get(fields, k)
  {
    var all := fields + [extra];
    if |fields| == 0 {
      assert all[1..] == [];
    } else {
      assert all[1..] == fields[1..] + [extra];
      GetAppend(fields[1..], extra, k);
    }
  }
}
