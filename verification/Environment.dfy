/** What simplifying does to the environment a container ends up with. */
module Environment {
  import opened Wrappers
  import opened Sequences
  import opened Strings
  import opened CdiSpec
  import opened Transforms
  import opened SimplifierTheory
  import opened Overwrites
  import opened Application

  // ----- the passes, one list at a time -----

  /** `t` is `s` less entries that `common` also has. */
  ghost predicate LessCommon(s: seq<string>, t: seq<string>, common: seq<string>) {
    exists p: string -> bool :: t == Keep(s, p) && forall e :: e in s && !p(e) ==> e in common
  }

  lemma {:induction false} KeptLast(s: seq<string>, p: string -> bool, common: seq<string>, name: string)
    requires forall e :: e in s && !p(e) ==> e in common
    requires LastOf(Name, common, name).None?
    ensures LastOf(Name, Keep(s, p), name) == LastOf(Name, s, name)
  {
    if s != [] {
      var init, e := s[..|s| - 1], s[|s| - 1];
      KeptLast(init, p, common, name);
      var k := Keep(init, p);
      assert (k + [e])[..|k|] == k;
    }
  }

  lemma LessLast(s: seq<string>, t: seq<string>, common: seq<string>, name: string)
    requires LessCommon(s, t, common) && LastOf(Name, common, name).None?
    ensures LastOf(Name, s, name) == LastOf(Name, t, name)
  {
    hide LastOf, Keep;
    var p: string -> bool :| t == Keep(s, p) && forall e :: e in s && !p(e) ==> e in common;
    KeptLast(s, p, common, name);
  }

  /** Dropping common entries from the devices never shows: the common edits come last. */
  lemma {:induction false} RemovalKeepsEnvironment(env: Table<string>, ss: seq<seq<string>>, ts: seq<seq<string>>,
      common: seq<string>)
    requires |ss| == |ts| && forall i :: 0 <= i < |ss| ==> LessCommon(ss[i], ts[i], common)
    ensures Apply(Name, ApplyAll(Name, env, ss), common) == Apply(Name, ApplyAll(Name, env, ts), common)
  {
    hide Apply, ApplyAll, LessCommon, LastOf, LeftBy;
    var a, b := Apply(Name, ApplyAll(Name, env, ss), common), Apply(Name, ApplyAll(Name, env, ts), common);
    forall n: string ensures Lookup(a, n) == Lookup(b, n) {
      LookupAfter(Name, env, ss, common, n);
      LookupAfter(Name, env, ts, common, n);
      if LastOf(Name, common, n).None? {
        forall i | 0 <= i < |ss| ensures LastOf(Name, ss[i], n) == LastOf(Name, ts[i], n) {
          LessLast(ss[i], ts[i], common, n);
        }
        LeftByAgrees(Name, ss, ts, n);
      }
    }
    Extensional(a, b);
  }

  /** Deduplicating one list keeps every environment exactly when its last values are its newest. */
  lemma DedupeKeepsEnvironmentIff(s: seq<string>)
    ensures (forall env: Table<string> :: Apply(Name, env, Unique(s)) == Apply(Name, env, s)) <==> LastIsNewest(Name, s)
  {
    ApplyAgreeIff(Name, s, Unique(s));
    NewestIff(Name, s);
  }

  /** One value a name is enough. */
  lemma NoConflictIsNewest(s: seq<string>)
    requires forall a, b :: a in s && b in s && Name(a) == Name(b) ==> a == b
    ensures LastIsNewest(Name, s)
  {
  }

  /** A value set, changed and set back: deduplication ends with the value in between. */
  lemma {:induction false} SetBackIsLost(a: string, b: string, env: Table<string>)
    requires a != b && Name(a) == Name(b)
    ensures Lookup(Apply(Name, env, [a, b, a]), Name(a)) == Some(a)
    ensures Lookup(Apply(Name, env, Unique([a, b, a])), Name(a)) == Some(b)
  {
    var s := [a, b, a];
    assert s[..2] == [a, b] && s[..2][..1] == [a] && [a][..0] == [];
    assert Unique([a]) == [a];
    assert Unique([a, b]) == [a, b];
    assert Unique(s) == [a, b];
    ApplyLookup(Name, env, s, Name(a));
    ApplyLookup(Name, env, [a, b], Name(a));
  }

  // ----- the whole simplifier, devices selected by name -----

  /**
   * In each device, of the values of a variable that the common edits leave unset, the
   * last one stays, and none of those that stay was introduced after it.
   */
  ghost predicate DevicesKeepLast(v: SpecValue) {
    forall d, e :: d in v.devices && e in d.edits.env && LastOf(Name, v.common.env, Name(e)).None? ==>
      var l := LastOf(Name, d.edits.env, Name(e)).value;
      Survives(v, d, l) && (Survives(v, d, e) ==> FirstIndex(d.edits.env, e) <= FirstIndex(d.edits.env, l))
  }

  ghost predicate KeepsLastOf(v: SpecValue, d: DeviceValue, name: string) {
    LastStays(Name, d.edits.env, EnvSurvives(v, d), name)
  }

  /** A device keeps what it leaves of a variable exactly if its last value stays and is the newest that does. */
  lemma DeviceEndsAlikeIff(v: SpecValue, d: DeviceValue, x: Edits, name: string)
    requires SortedEdits(Survivors(v, d), x)
    ensures LastOf(Name, x.env, name) == LastOf(Name, d.edits.env, name) <==> KeepsLastOf(v, d, name)
  {
    hide LastOf, EntityIds, Unique, Keep;
    SurvivorsAre(v, d);
    LastStaysIff(Name, d.edits.env, EnvSurvives(v, d), name);
  }

  lemma SelectedEndsAlikeIff(v: SpecValue, w: SpecValue, name: string, n: string)
    requires Simplified(v, w) && UniqueNames(v)
    ensures LastOf(Name, NamedLists(EnvOf, w)(name), n) == LastOf(Name, NamedLists(EnvOf, v)(name), n) <==>
      forall d :: d in v.devices && d.name == name ==> KeepsLastOf(v, d, n)
  {
    hide LastOf, Simplified, KeepsLastOf;
    var d, x := SelectedIs(EnvOf, v, w, name);
    if d.Some? {
      DeviceEndsAlikeIff(v, d.value, x, n);
      forall o | o in v.devices && o.name == name ensures o == d.value { SameName(v, o, d.value); }
    }
  }

  lemma SelectionsEndAlikeIff(v: SpecValue, w: SpecValue)
    requires Simplified(v, w) && UniqueNames(v)
    ensures ListsEndAlike(Name, NamedLists(EnvOf, v), v.common.env, NamedLists(EnvOf, w)) <==> DevicesKeepLast(v)
  {
    hide LastOf, Simplified, FirstIndex, EntityIds, NamedLists;
    if DevicesKeepLast(v) {
      forall name: string, n: string | LastOf(Name, v.common.env, n).None?
        ensures LastOf(Name, NamedLists(EnvOf, w)(name), n) == LastOf(Name, NamedLists(EnvOf, v)(name), n)
      {
        forall d | d in v.devices && d.name == name ensures KeepsLastOf(v, d, n) { }
        SelectedEndsAlikeIff(v, w, name, n);
      }
    } else {
      var d, e :| d in v.devices && e in d.edits.env && LastOf(Name, v.common.env, Name(e)).None? &&
        !var l := LastOf(Name, d.edits.env, Name(e)).value;
         Survives(v, d, l) && (Survives(v, d, e) ==> FirstIndex(d.edits.env, e) <= FirstIndex(d.edits.env, l));
      assert !KeepsLastOf(v, d, Name(e));
      SelectedEndsAlikeIff(v, w, d.name, Name(e));
    }
  }

  /** Selecting devices in any order gives the environments it gave before exactly under this condition. */
  lemma PipelineKeepsEnvironmentIff(v: SpecValue, w: SpecValue)
    requires Simplified(v, w) && UniqueNames(v)
    ensures SameFinal(Name, EnvOf, v, w) <==> LastIsNewest(Name, v.common.env) && DevicesKeepLast(v)
  {
    hide Simplified, LastIsNewest, DevicesKeepLast, SameFinal, SameLast, ListsEndAlike;
    SameFinalIff(Name, EnvOf, v, w);
    CommonEnvIs(v, w);
    NewestIff(Name, v.common.env);
    SelectionsEndAlikeIff(v, w);
  }

  lemma CommonEnvId(d: DeviceValue, v: SpecValue, e: string)
    requires e in d.edits.env && e in EntityIds(v.common) && !Clashes(d.edits, v.common)
    ensures e in v.common.env
  {
    hide NodeId, HookId, MountId;
    var y :| y in Entities(v.common) && Id(y) == e;
    var x := EnvEntity(e);
    assert x in Entities(d.edits);
    if y != x {
      IdCollision(x, y);
      assert TextClash(x, y);
      assert x in Entities(v.common);
    }
    EnvEntityIsEntry(x, v.common);
  }

  /** Without clashes the device condition comes down to each list on its own. */
  lemma HarmlessKeepsLast(v: SpecValue)
    requires forall d :: d in v.devices ==> Harmless(d.edits, v.common) && LastIsNewest(Name, d.edits.env)
    ensures DevicesKeepLast(v)
  {
    hide Clashes, EntityIds, FirstIndex;
    forall d, e | d in v.devices && e in d.edits.env && LastOf(Name, v.common.env, Name(e)).None?
      ensures Survives(v, d, LastOf(Name, d.edits.env, Name(e)).value)
    {
      var l := LastOf(Name, d.edits.env, Name(e)).value;
      if !Survives(v, d, l) { CommonEnvId(d, v, l); }
    }
  }

  /** So where nothing clashes and no value is set back, no selection of devices shows a difference. */
  lemma PipelineKeepsEnvironment(v: SpecValue, w: SpecValue, names: seq<string>, env: Table<string>)
    requires Simplified(v, w) && UniqueNames(v) && LastIsNewest(Name, v.common.env)
    requires forall d :: d in v.devices ==> Harmless(d.edits, v.common) && LastIsNewest(Name, d.edits.env)
    ensures Final(Name, EnvOf, w, names, env) == Final(Name, EnvOf, v, names, env)
  {
    hide Simplified, Harmless, LastIsNewest;
    HarmlessKeepsLast(v);
    PipelineKeepsEnvironmentIff(v, w);
  }

  // ----- the whole simplifier, devices in the order of the specification -----

  /** The env entries that a device keeps. */
  ghost function StayingEnv(v: SpecValue, d: DeviceValue): seq<string> {
    Keep(Unique(d.edits.env), EnvSurvives(v, d))
  }

  ghost predicate Sets(v: SpecValue, d: DeviceValue, name: string) { LastOf(Name, StayingEnv(v, d), name).Some? }

  /** Of the devices that still set the variable, the one with the greatest name leaves this entry. */
  ghost predicate LeftByName(v: SpecValue, name: string, entry: Option<string>) {
    match entry
    case None => forall d :: d in v.devices ==> !Sets(v, d, name)
    case Some(_) =>
      exists d :: d in v.devices && LastOf(Name, StayingEnv(v, d), name) == entry
        && forall o :: o in v.devices && Sets(v, o, name) ==> !Less(d.name, o.name)
  }

  lemma LeftByNameIsUnique(v: SpecValue, name: string, a: Option<string>, b: Option<string>)
    requires UniqueNames(v) && LeftByName(v, name, a) && LeftByName(v, name, b)
    ensures a == b
  {
    hide StayingEnv;
    if a.Some? && b.Some? {
      var d :| d in v.devices && LastOf(Name, StayingEnv(v, d), name) == a
        && forall o :: o in v.devices && Sets(v, o, name) ==> !Less(d.name, o.name);
      var e :| e in v.devices && LastOf(Name, StayingEnv(v, e), name) == b
        && forall o :: o in v.devices && Sets(v, o, name) ==> !Less(e.name, o.name);
      LessTotal(d.name, e.name);
      SameName(v, d, e);
    }
  }

  function EnvLists(v: SpecValue): (lists: seq<seq<string>>)
    ensures |lists| == |v.devices|
    ensures forall i :: 0 <= i < |v.devices| ==> lists[i] == v.devices[i].edits.env
  {
    assert forall i :: 0 <= i < |v.devices| ==> DeviceEntries(EnvOf)(v.devices[i]) == EnvOf(v.devices[i].edits);
    Map(DeviceEntries(EnvOf), v.devices)
  }

  lemma OutcomeEnv(v: SpecValue, d: DeviceValue, x: DeviceValue)
    requires Fate(v, d, x)
    ensures x.edits.env == StayingEnv(v, d) && x.name == d.name
  {
    hide EntityIds, Unique, Keep;
    SurvivorsAre(v, d);
  }

  /** Where a device that still sets the variable stands in the simplified specification. */
  lemma SetterAt(v: SpecValue, w: SpecValue, name: string, o: DeviceValue) returns (j: nat)
    requires Simplified(v, w) && o in v.devices && Sets(v, o, name)
    ensures j < |w.devices| == |EnvLists(w)| && w.devices[j].name == o.name
    ensures LastOf(Name, EnvLists(w)[j], name).Some?
  {
    hide Simplified, StayingEnv, Fate;
    var y := Outcome(v, w, o);
    OutcomeEnv(v, o, y);
    j :| 0 <= j < |w.devices| && w.devices[j] == y;
  }

  /** The simplified specification lists its devices by name, so the last setter has the greatest name. */
  lemma SimplifiedLeaves(v: SpecValue, w: SpecValue, name: string)
    requires Simplified(v, w)
    ensures LeftByName(v, name, LeftBy(Name, EnvLists(w), name))
  {
    hide Simplified, StayingEnv, Fate, LastOf, LeftBy, EnvLists, Sets;
    var entry := LeftBy(Name, EnvLists(w), name);
    var i := LeftByIndex(Name, EnvLists(w), name);
    SortedByName(v, w);
    forall o | o in v.devices && Sets(v, o, name) ensures entry.Some? && !Less(w.devices[i].name, o.name) {
      var j := SetterAt(v, w, name, o);
      LessIrreflexive(o.name);
    }
    if entry.Some? {
      var d := Origin(v, w, w.devices[i]);
      OutcomeEnv(v, d, w.devices[i]);
    }
  }

  lemma SortedByName(v: SpecValue, w: SpecValue)
    requires Simplified(v, w)
    ensures forall i, j :: 0 <= i < j < |w.devices| ==> !Less(w.devices[j].name, w.devices[i].name)
  {
    var mid := SimplifiedOrder(v, w);
  }

  lemma LessIrreflexive(s: string)
    ensures !Less(s, s)
  {
    if Less(s, s) { LessAsymmetric(s, s); }
  }

  ghost predicate SameModified(v: SpecValue, w: SpecValue) {
    forall env: Table<string> :: Modified(Name, EnvOf, w, env) == Modified(Name, EnvOf, v, env)
  }

  /** For every variable the common edits leave unset, both orders of the devices leave the same entry. */
  ghost predicate OrdersAgree(v: SpecValue) {
    forall name: string :: LastOf(Name, v.common.env, name).None? ==> LeftByName(v, name, LeftBy(Name, EnvLists(v), name))
  }

  /**
   * Applying the simplified specification makes of every environment what the original does
   * exactly if the common edits set no value back and the last setter in the order of the
   * specification leaves what the last remaining setter in the order of names leaves.
   */
  lemma ModifyKeepsEnvironmentIff(v: SpecValue, w: SpecValue)
    requires Simplified(v, w) && UniqueNames(v)
    ensures SameModified(v, w) <==> LastIsNewest(Name, v.common.env) && OrdersAgree(v)
  {
    hide Simplified, LastIsNewest, LeftByName, EnvLists;
    CommonEnvIs(v, w);
    NewestIff(Name, v.common.env);
    SameModifiedIff(v, w);
    forall name: string ensures LeftByName(v, name, LeftBy(Name, EnvLists(v), name)) <==>
        LeftBy(Name, EnvLists(w), name) == LeftBy(Name, EnvLists(v), name)
    {
      SimplifiedLeaves(v, w, name);
      if LeftByName(v, name, LeftBy(Name, EnvLists(v), name)) {
        LeftByNameIsUnique(v, name, LeftBy(Name, EnvLists(v), name), LeftBy(Name, EnvLists(w), name));
      }
    }
  }

  ghost predicate SameLeft(v: SpecValue, w: SpecValue) {
    forall name: string :: LastOf(Name, v.common.env, name).None? ==>
      LeftBy(Name, EnvLists(w), name) == LeftBy(Name, EnvLists(v), name)
  }

  lemma SameModifiedIff(v: SpecValue, w: SpecValue)
    requires w.common.env == Unique(v.common.env)
    ensures SameModified(v, w) <==> SameLast(Name, v.common.env, w.common.env) && SameLeft(v, w)
  {
    if SameLast(Name, v.common.env, w.common.env) && SameLeft(v, w) {
      forall env: Table<string> ensures Modified(Name, EnvOf, w, env) == Modified(Name, EnvOf, v, env) {
        var a, b := Modified(Name, EnvOf, w, env), Modified(Name, EnvOf, v, env);
        forall k: string ensures Lookup(a, k) == Lookup(b, k) {
          LookupAfter(Name, env, EnvLists(w), w.common.env, k);
          LookupAfter(Name, env, EnvLists(v), v.common.env, k);
        }
        Extensional(a, b);
      }
    } else {
      var k: string :| LastOf(Name, v.common.env, k) != LastOf(Name, w.common.env, k)
        || (LastOf(Name, v.common.env, k).None? && LeftBy(Name, EnvLists(w), k) != LeftBy(Name, EnvLists(v), k));
      var env: Table<string> := map[];
      LookupAfter(Name, env, EnvLists(w), w.common.env, k);
      LookupAfter(Name, env, EnvLists(v), v.common.env, k);
      assert Modified(Name, EnvOf, w, env) != Modified(Name, EnvOf, v, env);
    }
  }

  function EnvDevice(name: string, entry: string): DeviceValue {
    DeviceValue(name, map[], EMPTY_EDITS.(env := [entry]))
  }

  /** Two devices that set a variable differently, listed against the order of their names. */
  function AgainstNameOrder(first: string, second: string, x: string, y: string): SpecValue {
    SpecValue([EnvDevice(first, x), EnvDevice(second, y)], EMPTY_EDITS)
  }

  lemma NothingHasNoIds()
    ensures EntityIds(EMPTY_EDITS) == {}
  {
    hide Id;
    assert Entities(EMPTY_EDITS) == {};
  }

  lemma NothingCommonStays(v: SpecValue, d: DeviceValue, entry: string)
    requires v.common == EMPTY_EDITS && d.edits.env == [entry]
    ensures StayingEnv(v, d) == [entry] && LastOf(Name, StayingEnv(v, d), Name(entry)) == Some(entry)
  {
    hide EntityIds, LastOf, Unique, Keep;
    NothingHasNoIds();
    assert NoDuplicates([entry]);
    UniqueOfDistinct([entry]);
    KeepAll([entry], EnvSurvives(v, d));
    OnlyOne(Name, [entry], entry);
  }

  lemma AgainstNameOrderLeaves(first: string, second: string, x: string, y: string)
    requires Less(second, first) && x != y && Name(x) == Name(y)
    ensures var v := AgainstNameOrder(first, second, x, y);
      UniqueNames(v) && LeftBy(Name, EnvLists(v), Name(x)) == Some(y) && LeftByName(v, Name(x), Some(x))
  {
    hide StayingEnv;
    var v := AgainstNameOrder(first, second, x, y);
    var a, b := v.devices[0], v.devices[1];
    LessAsymmetric(second, first);
    LessIrreflexive(first);
    NothingCommonStays(v, a, x);
    NothingCommonStays(v, b, y);
    OnlyOne(Name, [y], y);
    assert a in v.devices;
  }

  lemma ModifiedLookup(v: SpecValue, env: Table<string>, name: string)
    ensures Lookup(Modified(Name, EnvOf, v, env), name) ==
      Else(LastOf(Name, v.common.env, name), Else(LeftBy(Name, EnvLists(v), name), Lookup(env, name)))
  {
    LookupAfter(Name, env, EnvLists(v), v.common.env, name);
  }

  /** The sort by name lets the first device win after simplifying, though the second did before. */
  lemma OrderShows(first: string, second: string, x: string, y: string, w: SpecValue, env: Table<string>)
    requires Less(second, first) && x != y && Name(x) == Name(y)
    requires Simplified(AgainstNameOrder(first, second, x, y), w)
    ensures Lookup(Modified(Name, EnvOf, AgainstNameOrder(first, second, x, y), env), Name(x)) == Some(y)
    ensures Lookup(Modified(Name, EnvOf, w, env), Name(x)) == Some(x)
  {
    hide Simplified, Modified, LeftByName, LeftBy, EnvLists;
    var v, k := AgainstNameOrder(first, second, x, y), Name(x);
    AgainstNameOrderLeaves(first, second, x, y);
    SimplifiedLeaves(v, w, k);
    LeftByNameIsUnique(v, k, Some(x), LeftBy(Name, EnvLists(w), k));
    CommonEnvIs(v, w);
    ModifiedLookup(v, env, k);
    ModifiedLookup(w, env, k);
  }
}
