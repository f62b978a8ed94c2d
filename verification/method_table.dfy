/**
 * The per-instance method table: ClassProxy in src/Service/ClassProxy.cs
 * and TypeDescription in src/TypeDescription.cs, which are the same code.
 */
module MethodTable {
  import opened Wrappers
  import opened LittleEndian
  import opened Codecs
  import opened Faults
  import opened Invoker

  type Table<!V> = map<string, MethodInfo<V>>

  /** Selected by BindingFlags.Instance | BindingFlags.Public | BindingFlags.DeclaredOnly. */
  predicate Exposed<V>(m: MethodInfo<V>)
  {
    m.isPublic && !m.isStatic && m.declaredHere
  }

  function ExposedNames<V>(infos: seq<MethodInfo<V>>): set<string>
  {
    set i | 0 <= i < |infos| && Exposed(infos[i]) :: infos[i].name
  }

  /** No exposed method reuses a name already in `keys` or a name of an earlier exposed method. */
  predicate FreshNames<V>(keys: set<string>, infos: seq<MethodInfo<V>>)
  {
    && (forall i :: 0 <= i < |infos| && Exposed(infos[i]) ==> infos[i].name !in keys)
    && (forall i, j :: 0 <= i < j < |infos| && Exposed(infos[i]) && Exposed(infos[j]) ==>
          infos[i].name != infos[j].name)
  }

  /** Skipping a method that is not exposed changes neither freshness nor the exposed names. */
  lemma SkipHidden<V>(keys: set<string>, infos: seq<MethodInfo<V>>)
    requires |infos| > 0 && !Exposed(infos[0])
    ensures FreshNames(keys, infos) <==> FreshNames(keys, infos[1..])
    ensures ExposedNames(infos) == ExposedNames(infos[1..])
  {
    assert forall i :: 1 <= i < |infos| ==> infos[i] == infos[1..][i - 1];
    if FreshNames(keys, infos[1..]) {
      forall i, j | 0 <= i < j < |infos| && Exposed(infos[i]) && Exposed(infos[j])
        ensures infos[i].name != infos[j].name
      {
        assert infos[i] == infos[1..][i - 1] && infos[j] == infos[1..][j - 1];
      }
    }
    forall n | n in ExposedNames(infos) ensures n in ExposedNames(infos[1..]) {
      var i :| 0 <= i < |infos| && Exposed(infos[i]) && infos[i].name == n;
      assert infos[i] == infos[1..][i - 1];
    }
  }

  /** Adding an exposed method with a new name moves its name from the rest into the keys. */
  lemma TakeExposed<V>(keys: set<string>, infos: seq<MethodInfo<V>>)
    requires |infos| > 0 && Exposed(infos[0]) && infos[0].name !in keys
    ensures FreshNames(keys, infos) <==> FreshNames(keys + {infos[0].name}, infos[1..])
    ensures ExposedNames(infos) == {infos[0].name} + ExposedNames(infos[1..])
  {
    var keys' := keys + {infos[0].name};
    if FreshNames(keys', infos[1..]) {
      forall i, j | 0 <= i < j < |infos| && Exposed(infos[i]) && Exposed(infos[j])
        ensures infos[i].name != infos[j].name
      {
        assert infos[j] == infos[1..][j - 1];
        if i > 0 { assert infos[i] == infos[1..][i - 1]; }
      }
      forall i | 0 <= i < |infos| && Exposed(infos[i]) ensures infos[i].name !in keys {
        if i > 0 { assert infos[i] == infos[1..][i - 1]; }
      }
    }
    if FreshNames(keys, infos) {
      forall i | 0 <= i < |infos[1..]| && Exposed(infos[1..][i]) ensures infos[1..][i].name !in keys' {
        assert infos[1..][i] == infos[i + 1];
      }
      forall i, j | 0 <= i < j < |infos[1..]| && Exposed(infos[1..][i]) && Exposed(infos[1..][j])
        ensures infos[1..][i].name != infos[1..][j].name
      {
        assert infos[1..][i] == infos[i + 1] && infos[1..][j] == infos[j + 1];
      }
    }
    forall n | n in ExposedNames(infos) ensures n in {infos[0].name} + ExposedNames(infos[1..]) {
      var i :| 0 <= i < |infos| && Exposed(infos[i]) && infos[i].name == n;
      if i > 0 { assert infos[i] == infos[1..][i - 1]; }
    }
    forall n | n in ExposedNames(infos[1..]) ensures n in ExposedNames(infos) {
      var i :| 0 <= i < |infos[1..]| && Exposed(infos[1..][i]) && infos[1..][i].name == n;
      assert infos[1..][i] == infos[i + 1];
    }
  }

  /**
   * The constructor's loop over the reflected methods, from table `t`:
   * `Dictionary.Add` of each exposed method under its name, which raises on a
   * name already present.
   */
  function AddAll<V>(t: Table<V>, infos: seq<MethodInfo<V>>): (r: Result<Table<V>, Fault>)
    ensures r.Ok? <==> FreshNames(t.Keys, infos)
    ensures r.Err? ==> r.error == System(DuplicateKey)
    ensures r.Ok? ==> r.value.Keys == t.Keys + ExposedNames(infos)
    ensures r.Ok? ==> forall k :: k in t ==> r.value[k] == t[k]
    ensures r.Ok? ==> forall i :: 0 <= i < |infos| && Exposed(infos[i]) ==> r.value[infos[i].name] == infos[i]
    decreases |infos|
  {
    if |infos| == 0 then Ok(t)
    else
      var m := infos[0];
      if !Exposed(m) then
        SkipHidden(t.Keys, infos);
        var r := AddAll(t, infos[1..]);
        assert r.Ok? ==> forall i :: 1 <= i < |infos| ==> infos[i] == infos[1..][i - 1];
        r
      else if m.name in t then
        Err(System(DuplicateKey))
      else
        var t' := t[m.name := m];
        TakeExposed(t.Keys, infos);
        assert t'.Keys == t.Keys + {m.name};
        var r := AddAll(t', infos[1..]);
        assert r.Ok? ==> forall i :: 1 <= i < |infos| ==> infos[i] == infos[1..][i - 1];
        r
  }

  /** The ClassProxy / TypeDescription constructor. */
  function Build<V>(infos: seq<MethodInfo<V>>): (r: Result<Table<V>, Fault>)
    ensures r.Ok? <==> FreshNames({}, infos)
    ensures r.Err? ==> r.error == System(DuplicateKey)
    ensures r.Ok? ==> r.value.Keys == ExposedNames(infos)
    ensures r.Ok? ==> forall i :: 0 <= i < |infos| && Exposed(infos[i]) ==> r.value[infos[i].name] == infos[i]
  {
    AddAll(map[], infos)
  }

  function HasMethod<V>(t: Table<V>, name: string): bool
  {
    name in t
  }

  /** CallMethod: an unknown name raises before any stream is touched; a known one runs its entry's Execute. */
  function CallMethod<V(!new)>(c: Codec<V>, t: Table<V>, name: string, input: seq<byte>): (r: Result<seq<byte>, Fault>)
    ensures name !in t ==> r == Err(UnknownMethod(name))
  {
    if name !in t then Err(UnknownMethod(name)) else Execute(c, t[name], input)
  }

  /** On a built table, HasMethod answers whether some exposed method carries the name. */
  lemma HasMethodIffExposed<V>(infos: seq<MethodInfo<V>>, t: Table<V>, name: string)
    requires Build(infos) == Ok(t)
    ensures HasMethod(t, name) <==> exists i :: 0 <= i < |infos| && Exposed(infos[i]) && infos[i].name == name
  {
  }

  /**
   * On a built table, calling a name runs the exposed method of that name,
   * and calling any other name is an UnknownMethod failure.
   */
  lemma CallMethodOnBuiltTable<V(!new)>(c: Codec<V>, infos: seq<MethodInfo<V>>, t: Table<V>, i: nat, input: seq<byte>)
    requires Build(infos) == Ok(t)
    requires i < |infos| && Exposed(infos[i])
    ensures CallMethod(c, t, infos[i].name, input) == Execute(c, infos[i], input)
  {
  }

  lemma CallMissingOnBuiltTable<V(!new)>(c: Codec<V>, infos: seq<MethodInfo<V>>, t: Table<V>, name: string, input: seq<byte>)
    requires Build(infos) == Ok(t)
    requires forall i :: 0 <= i < |infos| && Exposed(infos[i]) ==> infos[i].name != name
    ensures CallMethod(c, t, name, input) == Err(UnknownMethod(name))
  {
  }

  /** Two exposed methods sharing a name make construction fail instead of overwriting. */
  lemma DuplicateNameFails<V>(infos: seq<MethodInfo<V>>, i: nat, j: nat)
    requires i < j < |infos|
    requires Exposed(infos[i]) && Exposed(infos[j]) && infos[i].name == infos[j].name
    ensures Build(infos) == Err(System(DuplicateKey))
  {
  }
}
