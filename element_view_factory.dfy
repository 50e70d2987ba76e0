/** ElementViewFactory: the table from an element kind to the view prefab
    drawn for it, built from a configured list of (kind, prefab) pairs. The
    prefab is an opaque type parameter. */
module ViewFactory {
  import opened Grid

  /** One configured pair. */
  datatype PrefabPair<P> = PrefabPair(kind: ElementType, prefab: P)

  /** The answer of a lookup. `Missing` is the null returned for a kind
      with no configured pair; a pair whose prefab is unassigned gives
      `Found` of that (null) prefab. */
  datatype Lookup<P> = Missing | Found(prefab: P)

  /** The prefab of the first pair of kind `t`, scanning the list from the
      front. */
  function FirstPrefab<P>(config: seq<PrefabPair<P>>, t: ElementType): Lookup<P>
  {
    if config == [] then Missing
    else if config[0].kind == t then Found(config[0].prefab)
    else FirstPrefab(config[1..], t)
  }

  /** The kinds the list mentions. */
  function Kinds<P>(config: seq<PrefabPair<P>>): set<ElementType>
  {
    set i | 0 <= i < |config| :: config[i].kind
  }

  /** The table the constructor builds, pair by pair: a kind already in the
      table is skipped. */
  function Table<P>(config: seq<PrefabPair<P>>): map<ElementType, P>
  {
    if config == [] then map[]
    else
      var m := Table(config[..|config| - 1]);
      var p := config[|config| - 1];
      if p.kind in m then m else m[p.kind := p.prefab]
  }

  /** FirstPrefab finds the first pair of the kind, and is Missing exactly
      when no pair has it. */
  lemma {:induction false} FirstPrefabSpec<P>(config: seq<PrefabPair<P>>, t: ElementType)
    ensures FirstPrefab(config, t).Missing? <==> t !in Kinds(config)
    ensures forall i | 0 <= i < |config| && config[i].kind == t && (forall j | 0 <= j < i :: config[j].kind != t) ::
      FirstPrefab(config, t) == Found(config[i].prefab)
  {
    if config != [] {
      FirstPrefabSpec(config[1..], t);
      assert Kinds(config) == {config[0].kind} + Kinds(config[1..]) by {
        forall k | k in Kinds(config) ensures k in {config[0].kind} + Kinds(config[1..]) {
          var i :| 0 <= i < |config| && config[i].kind == k;
          if i > 0 {
            assert config[1..][i - 1].kind == k;
          }
        }
        forall k | k in Kinds(config[1..]) ensures k in Kinds(config) {
          var i :| 0 <= i < |config[1..]| && config[1..][i].kind == k;
          assert config[i + 1].kind == k;
        }
      }
      forall i | 0 <= i < |config| && config[i].kind == t && (forall j | 0 <= j < i :: config[j].kind != t)
        ensures FirstPrefab(config, t) == Found(config[i].prefab)
      {
        if i > 0 {
          assert config[1..][i - 1] == config[i];
          assert forall j | 0 <= j < i - 1 :: config[1..][j].kind != t by {
            forall j | 0 <= j < i - 1 ensures config[1..][j].kind != t {
              assert config[1..][j] == config[j + 1];
            }
          }
        }
      }
    }
  }

  /** Scanning one more pair changes the first match only when there was
      none. */
  lemma {:induction false} FirstPrefabSnoc<P>(config: seq<PrefabPair<P>>, p: PrefabPair<P>, t: ElementType)
    ensures FirstPrefab(config + [p], t) ==
      if FirstPrefab(config, t).Found? then FirstPrefab(config, t)
      else if p.kind == t then Found(p.prefab) else Missing
  {
    if config != [] {
      assert (config + [p])[1..] == config[1..] + [p];
      FirstPrefabSnoc(config[1..], p, t);
    }
  }

  /** The table holds exactly the configured kinds, each with the prefab of
      its first pair: the first pair wins. */
  lemma {:induction false} TableFirst<P>(config: seq<PrefabPair<P>>)
    ensures Table(config).Keys == Kinds(config)
    ensures forall t :: FirstPrefab(config, t) == if t in Table(config) then Found(Table(config)[t]) else Missing
    decreases |config|
  {
    if config != [] {
      var init := config[..|config| - 1];
      var p := config[|config| - 1];
      assert config == init + [p];
      TableFirst(init);
      assert Kinds(config) == Kinds(init) + {p.kind} by {
        forall k | k in Kinds(config) ensures k in Kinds(init) + {p.kind} {
          var i :| 0 <= i < |config| && config[i].kind == k;
          if i < |init| {
            assert init[i].kind == k;
          }
        }
        forall k | k in Kinds(init) ensures k in Kinds(config) {
          var i :| 0 <= i < |init| && init[i].kind == k;
          assert config[i].kind == k;
        }
      }
      forall t ensures FirstPrefab(config, t) == if t in Table(config) then Found(Table(config)[t]) else Missing {
        FirstPrefabSnoc(init, p, t);
      }
    }
  }

  class ElementViewFactory<P> {
    /** The configured pairs, in order. */
    ghost const config: seq<PrefabPair<P>>
    const prefabMap: map<ElementType, P>

    ghost predicate Valid()
    {
      prefabMap == Table(config)
    }

    /** Adds each configured pair whose kind is not yet in the table. */
    constructor(config: seq<PrefabPair<P>>)
      ensures this.config == config && Valid()
    {
      var m: map<ElementType, P> := map[];
      for i := 0 to |config|
        invariant m == Table(config[..i])
      {
        assert config[..i + 1][..i] == config[..i];
        if config[i].kind !in m {
          m := m[config[i].kind := config[i].prefab];
        }
      }
      assert config[..|config|] == config;
      this.config := config;
      prefabMap := m;
    }

    /** The prefab of the first configured pair of kind `t`, or Missing
        when no pair has that kind. */
    function GetPrefab(t: ElementType): (r: Lookup<P>)
      requires Valid()
      ensures r == FirstPrefab(config, t)
      ensures r.Missing? <==> t !in Kinds(config)
    {
      TableFirst(config);
      FirstPrefabSpec(config, t);
      if t in prefabMap then Found(prefabMap[t]) else Missing
    }
  }
}
