/** Collecting and reading the configmaps that a pod refers to
    (internal/common/utils/utils.go and internal/edgeapi/configmaps/configmaps.go). */
module ConfigMaps {
  import opened Entities

  // ---------- The pod ----------

  datatype NamedRef = NamedRef(name: string, optional: Option<bool>)
  datatype KeyRef = KeyRef(name: string, optional: Option<bool>, key: string)

  datatype EnvFromSource = EnvFromSource(configMapRef: Option<NamedRef>)
  datatype EnvVarSource = EnvVarSource(configMapKeyRef: Option<KeyRef>)
  datatype EnvVar = EnvVar(valueFrom: Option<EnvVarSource>)
  datatype Volume = Volume(configMap: Option<NamedRef>)
  datatype Container = Container(envFrom: seq<EnvFromSource>, env: seq<EnvVar>)
  datatype PodSpec = PodSpec(initContainers: seq<Container>, containers: seq<Container>, volumes: seq<Volume>)

  // ---------- References ----------

  /** A reference to a configmap, or to one of its keys. */
  datatype Ref = Ref(name: string, optional: bool, key: Option<string>)

  function IsOptional(flag: Option<bool>): bool {
    flag.Some? && flag.value
  }

  function KeysOf(r: Ref): set<string> {
    if r.key.Some? then {r.key.value} else {}
  }

  function EnvFromRefs(envs: seq<EnvFromSource>): seq<Ref> {
    if envs == [] then []
    else EnvFromRefs(envs[..|envs| - 1]) + (match envs[|envs| - 1].configMapRef
                                            case Some(r) => [Ref(r.name, IsOptional(r.optional), None)]
                                            case None => [])
  }

  function VolumeRefs(volumes: seq<Volume>): seq<Ref> {
    if volumes == [] then []
    else VolumeRefs(volumes[..|volumes| - 1]) + (match volumes[|volumes| - 1].configMap
                                                 case Some(r) => [Ref(r.name, IsOptional(r.optional), None)]
                                                 case None => [])
  }

  function EnvRefs(env: seq<EnvVar>): seq<Ref> {
    if env == [] then []
    else EnvRefs(env[..|env| - 1]) + (match env[|env| - 1].valueFrom
                                      case Some(EnvVarSource(Some(r))) => [Ref(r.name, IsOptional(r.optional), Some(r.key))]
                                      case _ => [])
  }

  function ContainerRefs(c: Container, volumes: seq<Volume>): seq<Ref> {
    EnvFromRefs(c.envFrom) + EnvRefs(c.env) + VolumeRefs(volumes)
  }

  /** The references in the order in which they are collected: the volumes come again with every container. */
  function PodRefs(containers: seq<Container>, volumes: seq<Volume>): seq<Ref> {
    if containers == [] then []
    else PodRefs(containers[..|containers| - 1], volumes) + ContainerRefs(containers[|containers| - 1], volumes)
  }

  /** An environment variable without a source, on which the callback of extractConfigMapsFromEnv dereferences a nil pointer. */
  predicate ContainerPanics(c: Container) {
    exists v | v in c.env :: v.valueFrom.None?
  }

  predicate Panics(containers: seq<Container>) {
    exists c | c in containers :: ContainerPanics(c)
  }

  // ---------- Collection as a join ----------

  /** Configmap names with the keys required of them; None for a name that is only optional. */
  type Collection = map<string, Option<set<string>>>

  function Join(a: Option<set<string>>, b: Option<set<string>>): Option<set<string>> {
    if a.None? then b else if b.None? then a else Some(a.value + b.value)
  }

  function Contribution(r: Ref): Option<set<string>> {
    if r.optional then None else Some(KeysOf(r))
  }

  function Collect(m: Collection, r: Ref): Collection {
    m[r.name := if r.name in m then Join(m[r.name], Contribution(r)) else Contribution(r)]
  }

  function CollectAll(m: Collection, refs: seq<Ref>): Collection {
    if refs == [] then m else Collect(CollectAll(m, refs[..|refs| - 1]), refs[|refs| - 1])
  }

  ghost predicate Names(refs: seq<Ref>, n: string) {
    exists r :: r in refs && r.name == n
  }

  ghost predicate Requires(refs: seq<Ref>, n: string) {
    exists r :: r in refs && r.name == n && !r.optional
  }

  ghost predicate RequiresKey(refs: seq<Ref>, n: string, k: string) {
    exists r :: r in refs && r.name == n && !r.optional && r.key == Some(k)
  }

  /** What the collection says of a name, read off the references without any order. */
  ghost predicate Describes(m: Collection, refs: seq<Ref>) {
    && (forall n :: n in m <==> Names(refs, n))
    && (forall n :: n in m ==> (m[n].Some? <==> Requires(refs, n)))
    && (forall n, k :: n in m && m[n].Some? ==> (k in m[n].value <==> RequiresKey(refs, n, k)))
  }

  lemma InSnoc(refs: seq<Ref>, r: Ref)
    requires refs != []
    ensures r in refs <==> r in refs[..|refs| - 1] || r == refs[|refs| - 1]
  {
  }

  lemma SnocNames(refs: seq<Ref>, n: string)
    requires refs != []
    ensures var front, last := refs[..|refs| - 1], refs[|refs| - 1];
            && (Names(refs, n) <==> Names(front, n) || last.name == n)
            && (Requires(refs, n) <==> Requires(front, n) || (last.name == n && !last.optional))
  {
    var front, last := refs[..|refs| - 1], refs[|refs| - 1];
    assert last in refs && forall r :: r in front ==> r in refs;
    forall r | r in refs ensures r in front || r == last { InSnoc(refs, r); }
  }

  lemma SnocKeys(refs: seq<Ref>, n: string, k: string)
    requires refs != []
    ensures var front, last := refs[..|refs| - 1], refs[|refs| - 1];
            && (RequiresKey(refs, n, k) <==> RequiresKey(front, n, k) || (last.name == n && !last.optional && last.key == Some(k)))
            && (RequiresKey(refs, n, k) ==> Requires(refs, n))
  {
    var front, last := refs[..|refs| - 1], refs[|refs| - 1];
    assert last in refs && forall r :: r in front ==> r in refs;
    forall r | r in refs ensures r in front || r == last { InSnoc(refs, r); }
  }

  lemma {:induction false} CollectionDescribes(refs: seq<Ref>)
    ensures Describes(CollectAll(map[], refs), refs)
    decreases |refs|
  {
    if refs != [] {
      var front, last := refs[..|refs| - 1], refs[|refs| - 1];
      CollectionDescribes(front);
      var m0, m := CollectAll(map[], front), CollectAll(map[], refs);
      forall r { InSnoc(refs, r); }
      forall n
        ensures n in m <==> Names(refs, n)
        ensures n in m ==> (m[n].Some? <==> Requires(refs, n))
      {
        SnocNames(refs, n);
      }
      forall n, k | n in m && m[n].Some?
        ensures k in m[n].value <==> RequiresKey(refs, n, k)
      {
        SnocNames(refs, n);
        SnocKeys(refs, n, k);
      }
    }
  }

  /** Collection is a join: only the set of references counts, neither their order nor repetitions, such as the
      volumes' that come once per container. */
  lemma OnlyTheSetCounts(refs: seq<Ref>, refs': seq<Ref>)
    requires forall r :: r in refs <==> r in refs'
    ensures CollectAll(map[], refs) == CollectAll(map[], refs')
  {
    CollectionDescribes(refs);
    CollectionDescribes(refs');
    var m, m' := CollectAll(map[], refs), CollectAll(map[], refs');
    forall n ensures n in m <==> n in m' {
      assert Names(refs, n) <==> Names(refs', n);
    }
    forall n | n in m ensures m[n] == m'[n] {
      assert Requires(refs, n) <==> Requires(refs', n);
      if m[n].Some? {
        forall k ensures k in m[n].value <==> k in m'[n].value {
          assert RequiresKey(refs, n, k) <==> RequiresKey(refs', n, k);
        }
        assert m[n].value == m'[n].value;
      }
    }
  }

  lemma CollectConcat(m: Collection, a: seq<Ref>, b: seq<Ref>)
    ensures CollectAll(m, a + b) == CollectAll(CollectAll(m, a), b)
  {
    if b == [] {
      assert a + b == a;
    } else {
      assert (a + b)[..|a + b| - 1] == a + b[..|b| - 1];
      CollectConcat(m, a, b[..|b| - 1]);
    }
  }

  // ---------- The pod's own fields ----------

  lemma {:induction false} EnvFromRefsExactly(envs: seq<EnvFromSource>, ref: Ref)
    ensures ref in EnvFromRefs(envs) <==>
      (exists e :: e in envs && e.configMapRef.Some?
         && ref == Ref(e.configMapRef.value.name, e.configMapRef.value.optional == Some(true), None))
    decreases |envs|
  {
    if envs != [] {
      EnvFromRefsExactly(envs[..|envs| - 1], ref);
      assert forall e :: e in envs <==> e in envs[..|envs| - 1] || e == envs[|envs| - 1];
    }
  }

  lemma {:induction false} VolumeRefsExactly(volumes: seq<Volume>, ref: Ref)
    ensures ref in VolumeRefs(volumes) <==>
      (exists v :: v in volumes && v.configMap.Some?
         && ref == Ref(v.configMap.value.name, v.configMap.value.optional == Some(true), None))
    decreases |volumes|
  {
    if volumes != [] {
      VolumeRefsExactly(volumes[..|volumes| - 1], ref);
      assert forall v :: v in volumes <==> v in volumes[..|volumes| - 1] || v == volumes[|volumes| - 1];
    }
  }

  /** The variable refers to a key of a configmap. */
  predicate HasKeyRef(v: EnvVar) {
    v.valueFrom.Some? && v.valueFrom.value.configMapKeyRef.Some?
  }

  function KeyRefOf(v: EnvVar): KeyRef
    requires HasKeyRef(v)
  {
    v.valueFrom.value.configMapKeyRef.value
  }

  lemma {:induction false} EnvRefsExactly(env: seq<EnvVar>, ref: Ref)
    ensures ref in EnvRefs(env) <==>
      (exists v :: v in env && HasKeyRef(v)
         && ref == Ref(KeyRefOf(v).name, KeyRefOf(v).optional == Some(true), Some(KeyRefOf(v).key)))
    decreases |env|
  {
    if env != [] {
      EnvRefsExactly(env[..|env| - 1], ref);
      var last := env[|env| - 1];
      if HasKeyRef(last) {
        assert last.valueFrom == Some(EnvVarSource(Some(KeyRefOf(last))));
      }
      assert EnvRefs(env) == EnvRefs(env[..|env| - 1]) + if HasKeyRef(last)
        then [Ref(KeyRefOf(last).name, IsOptional(KeyRefOf(last).optional), Some(KeyRefOf(last).key))] else [];
      assert forall v :: v in env <==> v in env[..|env| - 1] || v == env[|env| - 1];
    }
  }

  lemma {:induction false} PodRefsExactly(containers: seq<Container>, volumes: seq<Volume>, ref: Ref)
    ensures ref in PodRefs(containers, volumes) <==>
      || (exists c :: c in containers && (ref in EnvFromRefs(c.envFrom) || ref in EnvRefs(c.env)))
      || (containers != [] && ref in VolumeRefs(volumes))
    decreases |containers|
  {
    if containers != [] {
      PodRefsExactly(containers[..|containers| - 1], volumes, ref);
      assert forall c :: c in containers <==> c in containers[..|containers| - 1] || c == containers[|containers| - 1];
    }
  }

  /** Some field of the pod names the configmap; volumes do so only if there is a container. */
  ghost predicate Mentions(containers: seq<Container>, volumes: seq<Volume>, n: string) {
    || (exists c, e :: c in containers && e in c.envFrom && e.configMapRef.Some? && e.configMapRef.value.name == n)
    || (exists c, v :: c in containers && v in c.env && HasKeyRef(v) && KeyRefOf(v).name == n)
    || (containers != [] && exists v :: v in volumes && v.configMap.Some? && v.configMap.value.name == n)
  }

  lemma NamesAreMentioned(containers: seq<Container>, volumes: seq<Volume>, n: string)
    ensures Names(PodRefs(containers, volumes), n) <==> Mentions(containers, volumes, n)
  {
    if ref :| ref in PodRefs(containers, volumes) && ref.name == n {
      PodRefsExactly(containers, volumes, ref);
      forall c: Container { EnvFromRefsExactly(c.envFrom, ref); }
      forall c: Container { EnvRefsExactly(c.env, ref); }
      VolumeRefsExactly(volumes, ref);
    }
    if c, e :| c in containers && e in c.envFrom && e.configMapRef.Some? && e.configMapRef.value.name == n {
      var ref := Ref(n, e.configMapRef.value.optional == Some(true), None);
      EnvFromRefsExactly(c.envFrom, ref);
      PodRefsExactly(containers, volumes, ref);
    }
    if c, v :| c in containers && v in c.env && HasKeyRef(v) && KeyRefOf(v).name == n {
      var ref := Ref(n, KeyRefOf(v).optional == Some(true), Some(KeyRefOf(v).key));
      EnvRefsExactly(c.env, ref);
      PodRefsExactly(containers, volumes, ref);
    }
    if v :| containers != [] && v in volumes && v.configMap.Some? && v.configMap.value.name == n {
      var ref := Ref(n, v.configMap.value.optional == Some(true), None);
      VolumeRefsExactly(volumes, ref);
      PodRefsExactly(containers, volumes, ref);
    }
  }

  // ---------- The map that is filled in place ----------

  class KeySet {
    var keys: set<string>

    constructor (keys: set<string>)
      ensures this.keys == keys
    {
      this.keys := keys;
    }
  }

  /** A map from names to shared key sets; a missing set is a nil StringSet. */
  class ReferenceMap {
    var entries: map<string, KeySet?>

    constructor ()
      ensures entries == map[]
    {
      entries := map[];
    }

    ghost function Sets(): set<KeySet>
      reads this
    {
      set n | n in entries && entries[n] != null :: entries[n]
    }

    /** No key set is shared by two names. */
    ghost predicate Valid()
      reads this
    {
      forall a, b :: a in entries && b in entries && a != b && entries[a] != null ==> entries[a] != entries[b]
    }

    ghost function View(): Collection
      reads this, Sets()
    {
      map n | n in entries :: if entries[n] == null then None else Some(entries[n].keys)
    }

    /** The loop body shared by ExtractInfoFromEnvFrom and ExtractInfoFromVolume. */
    method AddName(name: string, optional: bool)
      requires Valid()
      modifies this
      ensures Valid() && fresh(Sets() - old(Sets()))
      ensures View() == Collect(old(View()), Ref(name, optional, None))
    {
      assert name in entries && entries[name] != null ==> entries[name].keys + {} == entries[name].keys;
      if name in entries {
        if !optional && entries[name] == null {
          var keys := new KeySet({});
          entries := entries[name := keys];
        }
      } else if optional {
        entries := entries[name := null];
      } else {
        var keys := new KeySet({});
        entries := entries[name := keys];
      }
    }

    /** The loop body of ExtractInfoFromEnv: a key joins the set that is already there. */
    method AddKey(name: string, optional: bool, key: string)
      requires Valid()
      modifies this, Sets()
      ensures Valid() && fresh(Sets() - old(Sets()))
      ensures View() == Collect(old(View()), Ref(name, optional, Some(key)))
    {
      if name in entries {
        if !optional {
          var keys := entries[name];
          if keys == null {
            var created := new KeySet({key});
            entries := entries[name := created];
          } else {
            keys.keys := keys.keys + {key};
          }
        }
      } else if optional {
        entries := entries[name := null];
      } else {
        var created := new KeySet({key});
        entries := entries[name := created];
      }
    }
  }

  lemma CollectOne(m: Collection, refs: seq<Ref>, r: Ref)
    ensures CollectAll(m, refs + [r]) == Collect(CollectAll(m, refs), r)
  {
    assert (refs + [r])[..|refs|] == refs;
  }

  method ExtractInfoFromEnvFrom(envs: seq<EnvFromSource>, themap: ReferenceMap)
    requires themap.Valid()
    modifies themap
    ensures themap.Valid() && fresh(themap.Sets() - old(themap.Sets()))
    ensures themap.View() == CollectAll(old(themap.View()), EnvFromRefs(envs))
  {
    for i := 0 to |envs|
      invariant themap.Valid() && fresh(themap.Sets() - old(themap.Sets()))
      invariant themap.View() == CollectAll(old(themap.View()), EnvFromRefs(envs[..i]))
    {
      assert envs[..i + 1][..i] == envs[..i];
      if envs[i].configMapRef.Some? {
        var r := envs[i].configMapRef.value;
        CollectOne(old(themap.View()), EnvFromRefs(envs[..i]), Ref(r.name, IsOptional(r.optional), None));
        themap.AddName(r.name, IsOptional(r.optional));
      } else {
        assert EnvFromRefs(envs[..i + 1]) == EnvFromRefs(envs[..i]);
      }
    }
    assert envs[..|envs|] == envs;
  }

  method ExtractInfoFromVolume(volumes: seq<Volume>, themap: ReferenceMap)
    requires themap.Valid()
    modifies themap
    ensures themap.Valid() && fresh(themap.Sets() - old(themap.Sets()))
    ensures themap.View() == CollectAll(old(themap.View()), VolumeRefs(volumes))
  {
    for i := 0 to |volumes|
      invariant themap.Valid() && fresh(themap.Sets() - old(themap.Sets()))
      invariant themap.View() == CollectAll(old(themap.View()), VolumeRefs(volumes[..i]))
    {
      assert volumes[..i + 1][..i] == volumes[..i];
      if volumes[i].configMap.Some? {
        var r := volumes[i].configMap.value;
        CollectOne(old(themap.View()), VolumeRefs(volumes[..i]), Ref(r.name, IsOptional(r.optional), None));
        themap.AddName(r.name, IsOptional(r.optional));
      } else {
        assert VolumeRefs(volumes[..i + 1]) == VolumeRefs(volumes[..i]);
      }
    }
    assert volumes[..|volumes|] == volumes;
  }

  /** Stops with a panic at the first variable without a source: the callback reads it before the loop tests it. */
  method ExtractInfoFromEnv(env: seq<EnvVar>, configmapMap: ReferenceMap) returns (panicked: bool)
    requires configmapMap.Valid()
    modifies configmapMap, configmapMap.Sets()
    ensures panicked <==> exists v :: v in env && v.valueFrom.None?
    ensures configmapMap.Valid() && fresh(configmapMap.Sets() - old(configmapMap.Sets()))
    ensures !panicked ==> configmapMap.View() == CollectAll(old(configmapMap.View()), EnvRefs(env))
  {
    for i := 0 to |env|
      invariant configmapMap.Valid() && fresh(configmapMap.Sets() - old(configmapMap.Sets()))
      invariant forall k :: 0 <= k < i ==> env[k].valueFrom.Some?
      invariant configmapMap.View() == CollectAll(old(configmapMap.View()), EnvRefs(env[..i]))
    {
      assert env[..i + 1][..i] == env[..i];
      if env[i].valueFrom.None? {
        assert env[i] in env;
        return true;
      }
      var ref := env[i].valueFrom.value.configMapKeyRef;
      if ref.Some? {
        var r := ref.value;
        CollectOne(old(configmapMap.View()), EnvRefs(env[..i]), Ref(r.name, IsOptional(r.optional), Some(r.key)));
        configmapMap.AddKey(r.name, IsOptional(r.optional), r.key);
      } else {
        assert EnvRefs(env[..i + 1]) == EnvRefs(env[..i]);
      }
    }
    assert env[..|env|] == env;
    return false;
  }

  method ExtractConfigMapsFromEnv(container: Container, configmapMap: ReferenceMap) returns (panicked: bool)
    requires configmapMap.Valid()
    modifies configmapMap, configmapMap.Sets()
    ensures panicked == ContainerPanics(container)
    ensures configmapMap.Valid() && fresh(configmapMap.Sets() - old(configmapMap.Sets()))
    ensures !panicked ==> configmapMap.View() == CollectAll(old(configmapMap.View()), EnvFromRefs(container.envFrom) + EnvRefs(container.env))
  {
    ghost var m := configmapMap.View();
    ExtractInfoFromEnvFrom(container.envFrom, configmapMap);
    panicked := ExtractInfoFromEnv(container.env, configmapMap);
    CollectConcat(m, EnvFromRefs(container.envFrom), EnvRefs(container.env));
  }

  // ---------- Reading the configmaps ----------

  /** A stored configmap; a nil data map and an empty one are the same value. */
  datatype ConfigMap = ConfigMap(name: string, data: map<string, string>)

  datatype Fetched = Panic | Failed | Success(list: seq<ConfigMap>)

  /** What the cluster holds, and the names for which reading fails with something else than "not found". */
  datatype ConfigMapStore = ConfigMapStore(data: map<string, map<string, string>>, unreadable: set<string>)

  /** The store has what the reference asks for. */
  predicate Satisfied(store: ConfigMapStore, r: Ref) {
    && r.name !in store.unreadable
    && (!r.optional ==> r.name in store.data && (r.key.Some? ==> r.key.value in store.data[r.name]))
  }

  predicate Readable(store: ConfigMapStore, name: string, keys: Option<set<string>>) {
    name !in store.unreadable && (keys.Some? ==> name in store.data && keys.value <= store.data[name].Keys)
  }

  ghost predicate AllReadable(m: Collection, store: ConfigMapStore) {
    forall n :: n in m ==> Readable(store, n, m[n])
  }

  ghost predicate AllSatisfied(refs: seq<Ref>, store: ConfigMapStore) {
    forall r :: r in refs ==> Satisfied(store, r)
  }

  /** readAndValidateConfigMap: the configmap, nothing for a missing optional one, or an error. */
  method ReadAndValidateConfigMap(store: ConfigMapStore, name: string, keys: Option<set<string>>) returns (ok: bool, configmap: Option<ConfigMap>)
    ensures ok == Readable(store, name, keys)
    ensures ok ==> configmap == if name in store.data then Some(ConfigMap(name, store.data[name])) else None
  {
    if name in store.unreadable {
      return false, None;
    }
    if name !in store.data {
      return keys.None?, None;
    }
    if keys.Some? {
      var rest := keys.value;
      while rest != {}
        invariant rest <= keys.value && keys.value - rest <= store.data[name].Keys
        decreases rest
      {
        var key :| key in rest;
        if key !in store.data[name] {
          return false, None;
        }
        rest := rest - {key};
      }
    }
    return true, Some(ConfigMap(name, store.data[name]));
  }

  /** The list holds each existing configmap of `names` once, as it is stored. */
  ghost predicate ListsEach(list: seq<ConfigMap>, names: set<string>, store: ConfigMapStore) {
    && (forall i :: 0 <= i < |list| ==>
          list[i].name in names && list[i].name in store.data && list[i].data == store.data[list[i].name])
    && (forall i, j :: 0 <= i < j < |list| ==> list[i].name != list[j].name)
    && (forall n :: n in names && n in store.data ==> exists i :: 0 <= i < |list| && list[i].name == n)
  }

  lemma ListsOneMore(list: seq<ConfigMap>, names: set<string>, store: ConfigMapStore, n: string)
    requires ListsEach(list, names, store) && n !in names
    ensures n in store.data ==> ListsEach(list + [ConfigMap(n, store.data[n])], names + {n}, store)
    ensures n !in store.data ==> ListsEach(list, names + {n}, store)
  {
    if n in store.data {
      var longer := list + [ConfigMap(n, store.data[n])];
      forall m | m in names + {n} && m in store.data ensures exists i :: 0 <= i < |longer| && longer[i].name == m {
        if m == n {
          assert longer[|list|].name == m;
        } else {
          var i :| 0 <= i < |list| && list[i].name == m;
          assert longer[i].name == m;
        }
      }
    }
  }

  /** The second loop of Fetch, over the names in any order. */
  method ReadAll(cmMap: ReferenceMap, store: ConfigMapStore) returns (ok: bool, list: seq<ConfigMap>)
    requires cmMap.Valid()
    ensures ok == AllReadable(cmMap.View(), store)
    ensures ok ==> ListsEach(list, cmMap.View().Keys, store)
  {
    list := [];
    var rest := cmMap.entries.Keys;
    ghost var done: set<string> := {};
    while rest != {}
      invariant rest <= cmMap.entries.Keys && done == cmMap.entries.Keys - rest
      invariant forall n :: n in done ==> Readable(store, n, cmMap.View()[n])
      invariant ListsEach(list, done, store)
      decreases rest
    {
      var name :| name in rest;
      var keys := if cmMap.entries[name] == null then None else Some(cmMap.entries[name].keys);
      assert keys == cmMap.View()[name];
      var read, configmap := ReadAndValidateConfigMap(store, name, keys);
      if !read {
        assert name in cmMap.View() && !Readable(store, name, cmMap.View()[name]);
        return false, [];
      }
      ListsOneMore(list, done, store, name);
      if configmap.Some? {
        list := list + [configmap.value];
      }
      done := done + {name};
      rest := rest - {name};
    }
    assert done == cmMap.View().Keys;
    ok := true;
  }

  /** The configmap of this name can be read, and exists unless the flag says that it need not. */
  predicate Available(store: ConfigMapStore, name: string, optional: Option<bool>) {
    name !in store.unreadable && (optional != Some(true) ==> name in store.data)
  }

  /** Every field of the pod that refers to a configmap, or to one of its keys, has what it asks for; volumes ask only if
      there is a container. */
  ghost predicate PodSatisfied(containers: seq<Container>, volumes: seq<Volume>, store: ConfigMapStore) {
    && (forall c, e :: c in containers && e in c.envFrom && e.configMapRef.Some? ==>
          Available(store, e.configMapRef.value.name, e.configMapRef.value.optional))
    && (forall c, v :: c in containers && v in c.env && HasKeyRef(v) ==>
          && Available(store, KeyRefOf(v).name, KeyRefOf(v).optional)
          && (KeyRefOf(v).optional != Some(true) ==> KeyRefOf(v).key in store.data[KeyRefOf(v).name]))
    && (forall v :: containers != [] && v in volumes && v.configMap.Some? ==>
          Available(store, v.configMap.value.name, v.configMap.value.optional))
  }

  lemma SatisfiedFields(containers: seq<Container>, volumes: seq<Volume>, store: ConfigMapStore)
    requires AllSatisfied(PodRefs(containers, volumes), store)
    ensures PodSatisfied(containers, volumes, store)
  {
    forall c, e | c in containers && e in c.envFrom && e.configMapRef.Some?
      ensures Available(store, e.configMapRef.value.name, e.configMapRef.value.optional)
    {
      var ref := Ref(e.configMapRef.value.name, e.configMapRef.value.optional == Some(true), None);
      EnvFromRefsExactly(c.envFrom, ref);
      PodRefsExactly(containers, volumes, ref);
      assert Satisfied(store, ref);
    }
    forall c, v | c in containers && v in c.env && HasKeyRef(v)
      ensures Available(store, KeyRefOf(v).name, KeyRefOf(v).optional)
      ensures KeyRefOf(v).optional != Some(true) ==> KeyRefOf(v).key in store.data[KeyRefOf(v).name]
    {
      var ref := Ref(KeyRefOf(v).name, KeyRefOf(v).optional == Some(true), Some(KeyRefOf(v).key));
      EnvRefsExactly(c.env, ref);
      PodRefsExactly(containers, volumes, ref);
      assert Satisfied(store, ref);
    }
    forall v | containers != [] && v in volumes && v.configMap.Some?
      ensures Available(store, v.configMap.value.name, v.configMap.value.optional)
    {
      var ref := Ref(v.configMap.value.name, v.configMap.value.optional == Some(true), None);
      VolumeRefsExactly(volumes, ref);
      PodRefsExactly(containers, volumes, ref);
      assert Satisfied(store, ref);
    }
  }

  lemma FieldsSatisfy(containers: seq<Container>, volumes: seq<Volume>, store: ConfigMapStore)
    requires PodSatisfied(containers, volumes, store)
    ensures AllSatisfied(PodRefs(containers, volumes), store)
  {
    forall ref | ref in PodRefs(containers, volumes) ensures Satisfied(store, ref) {
      PodRefsExactly(containers, volumes, ref);
      if containers != [] && ref in VolumeRefs(volumes) {
        VolumeRefsExactly(volumes, ref);
      } else {
        var c :| c in containers && (ref in EnvFromRefs(c.envFrom) || ref in EnvRefs(c.env));
        EnvFromRefsExactly(c.envFrom, ref);
        EnvRefsExactly(c.env, ref);
      }
    }
  }

  lemma ReadableImpliesSatisfied(refs: seq<Ref>, m: Collection, store: ConfigMapStore)
    requires Describes(m, refs) && AllReadable(m, store)
    ensures AllSatisfied(refs, store)
  {
    forall r | r in refs ensures Satisfied(store, r) {
      assert Names(refs, r.name);
      assert Readable(store, r.name, m[r.name]);
      if !r.optional {
        assert Requires(refs, r.name);
        if r.key.Some? {
          assert RequiresKey(refs, r.name, r.key.value);
          assert r.key.value in m[r.name].value;
        }
      }
    }
  }

  lemma SatisfiedImpliesReadable(refs: seq<Ref>, m: Collection, store: ConfigMapStore)
    requires Describes(m, refs) && AllSatisfied(refs, store)
    ensures AllReadable(m, store)
  {
    forall n | n in m ensures Readable(store, n, m[n]) {
      assert Names(refs, n);
      var r :| r in refs && r.name == n;
      assert Satisfied(store, r);
      if m[n].Some? {
        assert Requires(refs, n);
        var q :| q in refs && q.name == n && !q.optional;
        assert Satisfied(store, q);
        forall k | k in m[n].value ensures k in store.data[n] {
          assert RequiresKey(refs, n, k);
          var p :| p in refs && p.name == n && !p.optional && p.key == Some(k);
          assert Satisfied(store, p);
        }
      }
    }
  }

  /** The collected names are readable exactly when every reference is satisfied. */
  lemma ReadableIffSatisfied(refs: seq<Ref>, store: ConfigMapStore)
    ensures AllReadable(CollectAll(map[], refs), store) <==> AllSatisfied(refs, store)
  {
    var m := CollectAll(map[], refs);
    CollectionDescribes(refs);
    if AllReadable(m, store) {
      ReadableImpliesSatisfied(refs, m, store);
    }
    if AllSatisfied(refs, store) {
      SatisfiedImpliesReadable(refs, m, store);
    }
  }

  /** The body of the first loop of Fetch. */
  method ExtractFromContainer(c: Container, volumes: seq<Volume>, cmMap: ReferenceMap) returns (panicked: bool)
    requires cmMap.Valid()
    modifies cmMap, cmMap.Sets()
    ensures panicked == ContainerPanics(c)
    ensures cmMap.Valid() && fresh(cmMap.Sets() - old(cmMap.Sets()))
    ensures !panicked ==> cmMap.View() == CollectAll(old(cmMap.View()), ContainerRefs(c, volumes))
  {
    ghost var m := cmMap.View();
    panicked := ExtractConfigMapsFromEnv(c, cmMap);
    if !panicked {
      ExtractInfoFromVolume(volumes, cmMap);
      CollectConcat(m, EnvFromRefs(c.envFrom) + EnvRefs(c.env), VolumeRefs(volumes));
    }
  }

  lemma CollectOneMore(containers: seq<Container>, volumes: seq<Volume>, i: nat)
    requires i < |containers|
    ensures CollectAll(map[], PodRefs(containers[..i + 1], volumes))
         == CollectAll(CollectAll(map[], PodRefs(containers[..i], volumes)), ContainerRefs(containers[i], volumes))
    ensures Panics(containers[..i + 1]) <==> Panics(containers[..i]) || ContainerPanics(containers[i])
    ensures ContainerPanics(containers[i]) ==> Panics(containers)
  {
    var one := containers[..i + 1];
    assert one == containers[..i] + [containers[i]];
    assert one[..i] == containers[..i];
    CollectConcat(map[], PodRefs(containers[..i], volumes), ContainerRefs(containers[i], volumes));
    assert containers[i] in containers;
  }

  /** The first loop of Fetch. */
  method CollectReferences(allContainers: seq<Container>, volumes: seq<Volume>) returns (panicked: bool, cmMap: ReferenceMap)
    ensures fresh(cmMap) && fresh(cmMap.Sets()) && cmMap.Valid()
    ensures panicked == Panics(allContainers)
    ensures !panicked ==> cmMap.View() == CollectAll(map[], PodRefs(allContainers, volumes))
  {
    cmMap := new ReferenceMap();
    for i := 0 to |allContainers|
      invariant fresh(cmMap) && fresh(cmMap.Sets()) && cmMap.Valid()
      invariant !Panics(allContainers[..i])
      invariant cmMap.View() == CollectAll(map[], PodRefs(allContainers[..i], volumes))
    {
      var c := allContainers[i];
      CollectOneMore(allContainers, volumes, i);
      panicked := ExtractFromContainer(c, volumes, cmMap);
      if panicked {
        return;
      }
    }
    assert allContainers[..|allContainers|] == allContainers;
    panicked := false;
  }

  ghost predicate Listed(list: seq<ConfigMap>, name: string) {
    exists i :: 0 <= i < |list| && list[i].name == name
  }

  /** Fetch: panics exactly on an environment variable without a source; otherwise it succeeds exactly when every
      field of the pod has what it asks for, and then returns each configmap mentioned that exists, once. */
  method Fetch(pod: PodSpec, store: ConfigMapStore) returns (result: Fetched)
    ensures result.Panic? <==> exists c, v :: c in pod.initContainers + pod.containers && v in c.env && v.valueFrom.None?
    ensures var containers := pod.initContainers + pod.containers;
            && (!result.Panic? ==> (result.Success? <==> PodSatisfied(containers, pod.volumes, store)))
            && (result.Success? ==>
                  && (forall n :: Listed(result.list, n) <==> n in store.data && Mentions(containers, pod.volumes, n))
                  && (forall i :: 0 <= i < |result.list| ==>
                        result.list[i].name in store.data && result.list[i].data == store.data[result.list[i].name])
                  && (forall i, j :: 0 <= i < j < |result.list| ==> result.list[i].name != result.list[j].name))
  {
    ghost var containers := pod.initContainers + pod.containers;
    var panicked, cmMap := CollectReferences(pod.initContainers + pod.containers, pod.volumes);
    if panicked {
      return Panic;
    }
    ghost var refs := PodRefs(containers, pod.volumes);
    ReadableIffSatisfied(refs, store);
    CollectionDescribes(refs);
    if AllSatisfied(refs, store) {
      SatisfiedFields(containers, pod.volumes, store);
    }
    if PodSatisfied(containers, pod.volumes, store) {
      FieldsSatisfy(containers, pod.volumes, store);
    }
    forall n { NamesAreMentioned(containers, pod.volumes, n); }
    var ok, list := ReadAll(cmMap, store);
    result := if ok then Success(list) else Failed;
  }
}
