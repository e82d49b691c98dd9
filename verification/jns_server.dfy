/**
  The JNS type directory (subprojects/JNS/JnsServer.cs): built once from a
  list of registrations, it maps a (group tag, type tag) pair to a concrete
  type, a concrete type back to its pair, knows the set of group tags, and
  holds one converter per distinct base type.

  The reflective attribute lookup of the original is replaced by an
  explicit registration list: each entry carries what the type's
  `JsonPolyName` attribute would have said.
*/
module JnsServer {
  import opened Wrappers
  import Seqs

  /*
    The directory is generic in how tags (`G`, strings in the original) and
    .NET types (`Ty`) are represented: it only compares them for equality.
  */

  /** The tag pair written in front of a polymorphic value. */
  datatype JnsRecord<G> = JnsRecord(groupName: G, typeName: G)

  /** One entry of the registration list: a concrete type and its attribute. */
  datatype Registration<G, Ty> = Registration(groupName: G, typeName: G, baseType: Ty, concrete: Ty)
  {
    function Record(): JnsRecord<G>
    {
      JnsRecord(groupName, typeName)
    }
  }

  /**
    The directory. `converters` lists the base type each converter is
    instantiated for; `declaredBase` records the base type each concrete
    type was registered under, which stands in for the runtime type
    hierarchy when a converter casts a decoded value to its base type.
  */
  datatype Server<G, Ty> = Server(
    forward: map<JnsRecord<G>, Ty>,
    backward: map<Ty, JnsRecord<G>>,
    groups: set<G>,
    converters: seq<Ty>,
    declaredBase: map<Ty, Ty>)

  /** `Dictionary.Add` throws on a key it already holds; the index is the offending registration. */
  datatype BuildError = DuplicateRecord(index: nat) | DuplicateType(index: nat)

  function ContainsGroup<G(==), Ty(==)>(s: Server<G, Ty>, groupName: G): bool
  {
    groupName in s.groups
  }

  function ContainsType<G(==), Ty(==)>(s: Server<G, Ty>, t: Ty): bool
  {
    t in s.backward
  }

  function TranslateRecord<G(==), Ty(==)>(s: Server<G, Ty>, record: JnsRecord<G>): Option<Ty>
  {
    if record in s.forward then Some(s.forward[record]) else None
  }

  function TranslateType<G(==), Ty(==)>(s: Server<G, Ty>, t: Ty): Option<JnsRecord<G>>
  {
    if t in s.backward then Some(s.backward[t]) else None
  }

  /** The base types of the registrations, in registration order. */
  function Bases<G(==), Ty(==)>(regs: seq<Registration<G, Ty>>): (r: seq<Ty>)
    ensures |r| == |regs|
    ensures forall i | 0 <= i < |regs| :: r[i] == regs[i].baseType
  {
    seq(|regs|, i requires 0 <= i < |regs| => regs[i].baseType)
  }

  /** No tag pair and no concrete type is registered twice. */
  predicate NoDuplicates<G(==), Ty(==)>(regs: seq<Registration<G, Ty>>)
  {
    forall i, j | 0 <= i < j < |regs| ::
      regs[i].Record() != regs[j].Record() && regs[i].concrete != regs[j].concrete
  }

  /** The lookups of `s` agree with the registration `reg`. */
  ghost predicate Agrees<G, Ty>(s: Server<G, Ty>, reg: Registration<G, Ty>)
  {
    && reg.Record() in s.forward && s.forward[reg.Record()] == reg.concrete
    && reg.concrete in s.backward && s.backward[reg.concrete] == reg.Record()
    && reg.concrete in s.declaredBase && s.declaredBase[reg.concrete] == reg.baseType
  }

  ghost function Records<G, Ty>(regs: seq<Registration<G, Ty>>): set<JnsRecord<G>>
  {
    set i | 0 <= i < |regs| :: regs[i].Record()
  }

  ghost function Concretes<G, Ty>(regs: seq<Registration<G, Ty>>): set<Ty>
  {
    set i | 0 <= i < |regs| :: regs[i].concrete
  }

  ghost function Groups<G, Ty>(regs: seq<Registration<G, Ty>>): set<G>
  {
    set i | 0 <= i < |regs| :: regs[i].groupName
  }

  /** `s` is exactly the directory the registrations `regs` describe. */
  ghost predicate Describes<G, Ty>(s: Server<G, Ty>, regs: seq<Registration<G, Ty>>)
  {
    && (forall i | 0 <= i < |regs| :: Agrees(s, regs[i]))
    && s.forward.Keys == Records(regs)
    && s.backward.Keys == Concretes(regs)
    && s.declaredBase.Keys == s.backward.Keys
    && s.groups == Groups(regs)
    && s.converters == Seqs.Dedup(Bases(regs))
  }

  /** The directory after registering `reg`, with `converters` as the new converter list. */
  function Extend<G(==), Ty(==)>(s: Server<G, Ty>, reg: Registration<G, Ty>, converters: seq<Ty>): Server<G, Ty>
  {
    Server(
      s.forward[reg.Record() := reg.concrete],
      s.backward[reg.concrete := reg.Record()],
      s.groups + {reg.groupName},
      converters,
      s.declaredBase[reg.concrete := reg.baseType])
  }

  /** Registering one more fresh type extends the directory by exactly that type. */
  lemma DescribesSnoc<G, Ty>(s: Server<G, Ty>, regs: seq<Registration<G, Ty>>, reg: Registration<G, Ty>, converters: seq<Ty>)
    requires Describes(s, regs)
    requires reg.Record() !in s.forward && reg.concrete !in s.backward
    requires converters == Seqs.Dedup(Bases(regs + [reg]))
    ensures Describes(Extend(s, reg, converters), regs + [reg])
  {
    AgreesSnoc(s, regs, reg, converters);
    SnocSets(regs, reg);
    UpdateKeys(s.forward, reg.Record(), reg.concrete, Records(regs));
    UpdateKeys(s.backward, reg.concrete, reg.Record(), Concretes(regs));
    UpdateKeys(s.declaredBase, reg.concrete, reg.baseType, Concretes(regs));
  }

  lemma UpdateKeys<K, V>(m: map<K, V>, k: K, v: V, keys: set<K>)
    requires m.Keys == keys
    ensures m[k := v].Keys == keys + {k}
  {
  }

  lemma AgreesSnoc<G, Ty>(s: Server<G, Ty>, regs: seq<Registration<G, Ty>>, reg: Registration<G, Ty>, converters: seq<Ty>)
    requires forall i | 0 <= i < |regs| :: Agrees(s, regs[i])
    requires reg.Record() !in s.forward && reg.concrete !in s.backward
    ensures forall i | 0 <= i < |regs + [reg]| :: Agrees(Extend(s, reg, converters), (regs + [reg])[i])
  {
    var regs' := regs + [reg];
    var s' := Extend(s, reg, converters);
    forall i | 0 <= i < |regs'| ensures Agrees(s', regs'[i])
    {
      if i < |regs| {
        var r := regs[i];
        assert regs'[i] == r;
        assert Agrees(s, r);
        assert r.Record() != reg.Record() && r.concrete != reg.concrete;
      } else {
        assert regs'[i] == reg;
      }
    }
  }

  lemma SnocSets<G, Ty>(regs: seq<Registration<G, Ty>>, reg: Registration<G, Ty>)
    ensures Records(regs + [reg]) == Records(regs) + {reg.Record()}
    ensures Concretes(regs + [reg]) == Concretes(regs) + {reg.concrete}
    ensures Groups(regs + [reg]) == Groups(regs) + {reg.groupName}
  {
    var regs' := regs + [reg];
    assert forall i | 0 <= i < |regs| :: regs'[i] == regs[i];
    assert regs'[|regs|] == reg;
  }

  /**
    The invariants every directory keeps: the two lookup maps are mutual
    inverses, every group tag in use is known, and there is one converter
    for each base type in use.
  */
  ghost predicate Valid<G, Ty>(s: Server<G, Ty>)
  {
    && (forall rec | rec in s.forward :: s.forward[rec] in s.backward && s.backward[s.forward[rec]] == rec)
    && (forall t | t in s.backward :: s.backward[t] in s.forward && s.forward[s.backward[t]] == t)
    && (forall rec | rec in s.forward :: rec.groupName in s.groups)
    && s.declaredBase.Keys == s.backward.Keys
    && Seqs.Distinct(s.converters)
    && (forall t | t in s.declaredBase :: s.declaredBase[t] in s.converters)
  }

  /** The directory the registrations describe keeps the invariants. */
  lemma DescribedIsValid<G, Ty>(s: Server<G, Ty>, regs: seq<Registration<G, Ty>>)
    requires Describes(s, regs)
    ensures Valid(s)
  {
    ForwardIsInverse(s, regs);
    BackwardIsInverse(s, regs);
    BasesHaveConverters(s, regs);
  }

  lemma ForwardIsInverse<G, Ty>(s: Server<G, Ty>, regs: seq<Registration<G, Ty>>)
    requires forall i | 0 <= i < |regs| :: Agrees(s, regs[i])
    requires s.forward.Keys == Records(regs)
    ensures forall rec | rec in s.forward ::
      s.forward[rec] in s.backward && s.backward[s.forward[rec]] == rec && rec.groupName in Groups(regs)
  {
    forall rec | rec in s.forward
      ensures s.forward[rec] in s.backward && s.backward[s.forward[rec]] == rec && rec.groupName in Groups(regs)
    {
      assert rec in Records(regs);
      var i :| 0 <= i < |regs| && regs[i].Record() == rec;
      assert Agrees(s, regs[i]);
    }
  }

  lemma BackwardIsInverse<G, Ty>(s: Server<G, Ty>, regs: seq<Registration<G, Ty>>)
    requires forall i | 0 <= i < |regs| :: Agrees(s, regs[i])
    requires s.backward.Keys == Concretes(regs)
    ensures forall t | t in s.backward :: s.backward[t] in s.forward && s.forward[s.backward[t]] == t
  {
    forall t | t in s.backward
      ensures s.backward[t] in s.forward && s.forward[s.backward[t]] == t
    {
      assert t in Concretes(regs);
      var i :| 0 <= i < |regs| && regs[i].concrete == t;
      assert Agrees(s, regs[i]);
    }
  }

  lemma BasesHaveConverters<G, Ty>(s: Server<G, Ty>, regs: seq<Registration<G, Ty>>)
    requires forall i | 0 <= i < |regs| :: Agrees(s, regs[i])
    requires s.declaredBase.Keys == Concretes(regs)
    requires s.converters == Seqs.Dedup(Bases(regs))
    ensures forall t | t in s.declaredBase :: s.declaredBase[t] in s.converters
  {
    forall t | t in s.declaredBase
      ensures s.declaredBase[t] in s.converters
    {
      assert t in Concretes(regs);
      var i :| 0 <= i < |regs| && regs[i].concrete == t;
      assert Agrees(s, regs[i]);
      assert Bases(regs)[i] == regs[i].baseType;
      assert regs[i].baseType in Seqs.Elements(Bases(regs));
    }
  }

  /**
    The constructor: walks the registrations in order, adding each tag pair
    to the forward map and each concrete type to the backward map (either
    `Add` throws on a repeated key), and creates a converter for a base type
    the first time it is seen.
  */
  method Build<G(==), Ty(==)>(regs: seq<Registration<G, Ty>>) returns (r: Result<Server<G, Ty>, BuildError>)
    ensures r.Ok? <==> NoDuplicates(regs)
    ensures r.Ok? ==> Describes(r.value, regs) && Valid(r.value)
    ensures r.Err? ==> r.error.index < |regs| && NoDuplicates(regs[..r.error.index])
    ensures r.Err? && r.error.DuplicateRecord? ==>
      exists j | 0 <= j < r.error.index :: regs[j].Record() == regs[r.error.index].Record()
    ensures r.Err? && r.error.DuplicateType? ==>
      exists j | 0 <= j < r.error.index :: regs[j].concrete == regs[r.error.index].concrete
  {
    var s: Server<G, Ty> := Server(map[], map[], {}, [], map[]);
    var baseTypes: set<Ty> := {};
    var k := 0;
    while k < |regs|
      invariant 0 <= k <= |regs|
      invariant NoDuplicates(regs[..k])
      invariant Describes(s, regs[..k])
      invariant baseTypes == Seqs.Elements(Bases(regs[..k]))
    {
      var reg := regs[k];
      if reg.Record() in s.forward {
        RecordClash(s, regs, k);
        return Err(DuplicateRecord(k));
      }
      if reg.concrete in s.backward {
        TypeClash(s, regs, k);
        return Err(DuplicateType(k));
      }
      var converters := if reg.baseType !in baseTypes then s.converters + [reg.baseType] else s.converters;
      BuildStep(s, regs, k, baseTypes, converters);
      s := Extend(s, reg, converters);
      baseTypes := baseTypes + {reg.baseType};
      k := k + 1;
    }
    assert regs[..k] == regs;
    DescribedIsValid(s, regs);
    return Ok(s);
  }

  /** One iteration of the constructor keeps its three invariants. */
  lemma BuildStep<G, Ty>(s: Server<G, Ty>, regs: seq<Registration<G, Ty>>, k: nat, baseTypes: set<Ty>, converters: seq<Ty>)
    requires k < |regs|
    requires NoDuplicates(regs[..k]) && Describes(s, regs[..k])
    requires baseTypes == Seqs.Elements(Bases(regs[..k]))
    requires regs[k].Record() !in s.forward && regs[k].concrete !in s.backward
    requires converters == if regs[k].baseType !in baseTypes then s.converters + [regs[k].baseType] else s.converters
    ensures NoDuplicates(regs[..k + 1])
    ensures Describes(Extend(s, regs[k], converters), regs[..k + 1])
    ensures baseTypes + {regs[k].baseType} == Seqs.Elements(Bases(regs[..k + 1]))
  {
    var reg := regs[k];
    var prefix := regs[..k];
    assert regs[..k + 1] == prefix + [reg];
    NoDuplicatesSnoc(prefix, reg);
    assert Bases(prefix + [reg]) == Bases(prefix) + [reg.baseType];
    Seqs.DedupSnoc(Bases(prefix), reg.baseType);
    Seqs.ElementsSnoc(Bases(prefix), reg.baseType);
    DescribesSnoc(s, prefix, reg, converters);
  }

  /** A tag pair already in the forward map was registered earlier. */
  lemma RecordClash<G, Ty>(s: Server<G, Ty>, regs: seq<Registration<G, Ty>>, k: nat)
    requires k < |regs| && Describes(s, regs[..k]) && regs[k].Record() in s.forward
    ensures !NoDuplicates(regs)
    ensures exists j | 0 <= j < k :: regs[j].Record() == regs[k].Record()
  {
    var prefix := regs[..k];
    assert regs[k].Record() in Records(prefix);
    var j :| 0 <= j < k && prefix[j].Record() == regs[k].Record();
    assert regs[j] == prefix[j];
    NoDuplicatesExtends(regs, k + 1, j);
  }

  /** A type already in the backward map was registered earlier. */
  lemma TypeClash<G, Ty>(s: Server<G, Ty>, regs: seq<Registration<G, Ty>>, k: nat)
    requires k < |regs| && Describes(s, regs[..k]) && regs[k].concrete in s.backward
    ensures !NoDuplicates(regs)
    ensures exists j | 0 <= j < k :: regs[j].concrete == regs[k].concrete
  {
    var prefix := regs[..k];
    assert regs[k].concrete in Concretes(prefix);
    var j :| 0 <= j < k && prefix[j].concrete == regs[k].concrete;
    assert regs[j] == prefix[j];
    NoDuplicatesExtends(regs, k + 1, j);
  }

  /** A registration whose tag pair and type are both new keeps the list duplicate-free. */
  lemma NoDuplicatesSnoc<G, Ty>(regs: seq<Registration<G, Ty>>, reg: Registration<G, Ty>)
    requires NoDuplicates(regs)
    requires reg.Record() !in Records(regs) && reg.concrete !in Concretes(regs)
    ensures NoDuplicates(regs + [reg])
  {
    var regs' := regs + [reg];
    forall i, j | 0 <= i < j < |regs'|
      ensures regs'[i].Record() != regs'[j].Record() && regs'[i].concrete != regs'[j].concrete
    {
      if j == |regs| {
        assert regs'[i] == regs[i];
        assert regs[i].Record() in Records(regs) && regs[i].concrete in Concretes(regs);
      } else {
        assert regs'[i] == regs[i] && regs'[j] == regs[j];
      }
    }
  }

  /** A clash inside the first `n` registrations rules out a duplicate-free list. */
  lemma NoDuplicatesExtends<G, Ty>(regs: seq<Registration<G, Ty>>, n: nat, j: nat)
    requires j < n - 1 && n <= |regs|
    requires regs[j].Record() == regs[n - 1].Record() || regs[j].concrete == regs[n - 1].concrete
    ensures !NoDuplicates(regs)
  {
  }

  /** The four lookups of a built directory answer from the registrations alone. */
  lemma LookupsFollowRegistrations<G, Ty>(s: Server<G, Ty>, regs: seq<Registration<G, Ty>>, g: G, t: Ty)
    requires Describes(s, regs)
    ensures ContainsGroup(s, g) <==> exists i | 0 <= i < |regs| :: regs[i].groupName == g
    ensures ContainsType(s, t) <==> exists i | 0 <= i < |regs| :: regs[i].concrete == t
    ensures TranslateType(s, t).None? <==> forall i | 0 <= i < |regs| :: regs[i].concrete != t
    ensures forall i | 0 <= i < |regs| ::
      && TranslateRecord(s, regs[i].Record()) == Some(regs[i].concrete)
      && TranslateType(s, regs[i].concrete) == Some(regs[i].Record())
  {
    assert g in Groups(regs) <==> exists i | 0 <= i < |regs| :: regs[i].groupName == g;
    assert t in Concretes(regs) <==> exists i | 0 <= i < |regs| :: regs[i].concrete == t;
    forall i | 0 <= i < |regs|
      ensures TranslateRecord(s, regs[i].Record()) == Some(regs[i].concrete)
      ensures TranslateType(s, regs[i].concrete) == Some(regs[i].Record())
    {
      assert Agrees(s, regs[i]);
    }
  }

  /** Looking up the tag pair of a registered type gives the type back. */
  lemma TranslationsInverse<G, Ty>(s: Server<G, Ty>, t: Ty)
    requires Valid(s) && ContainsType(s, t)
    ensures TranslateType(s, t).Some?
    ensures TranslateRecord(s, TranslateType(s, t).value) == Some(t)
  {
  }
}
