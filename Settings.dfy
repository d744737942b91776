/**
 * `LocalizationKeyGeneratorSettings`: the preview locales, the parameter
 * dictionary rebuilt from its serialised pairs, the snippet collections and
 * the `Version` counter that tells the inspectors the settings changed.
 */
module Settings {
  import opened Wrappers

  // ------------------------------------------------- case-insensitive keys

  /** Upper-case mapping of one character, as `StringComparer.OrdinalIgnoreCase`
      applies it (restricted here to the ASCII letters). */
  function FoldChar(c: char): char {
    if 'a' <= c <= 'z' then (c as int - 32) as char else c
  }

  function Fold(s: string): string {
    seq(|s|, i requires 0 <= i < |s| => FoldChar(s[i]))
  }

  /** Two keys are equal under `StringComparer.OrdinalIgnoreCase`. */
  predicate SameKey(a: string, b: string) {
    Fold(a) == Fold(b)
  }

  // ------------------------------------------------------ grouping pairs

  /** One serialised key/value pair of the parameter list. */
  datatype Pair = Pair(key: string, value: string)

  /** An `IGrouping`: the key of the group and its pairs in input order. */
  datatype Grouping = Grouping(key: string, elements: seq<Pair>)

  /** The pairs whose key folds to `f`, in input order: the reference
      definition of a group's contents. */
  function Matching(ps: seq<Pair>, f: string): (r: seq<Pair>)
    ensures |r| <= |ps|
  {
    if ps == [] then []
    else
      var last := ps[|ps| - 1];
      Matching(ps[..|ps| - 1], f) + (if Fold(last.key) == f then [last] else [])
  }

  /** A group holds exactly the input pairs whose key matches. */
  lemma {:induction false} MatchingMembers(ps: seq<Pair>, f: string)
    ensures forall p :: p in Matching(ps, f) <==> p in ps && Fold(p.key) == f
  {
    if ps != [] {
      var init := ps[..|ps| - 1];
      MatchingMembers(init, f);
      assert ps == init + [ps[|ps| - 1]];
    }
  }

  /** No pair matches, so the group is empty. */
  lemma {:induction false} MatchingNone(ps: seq<Pair>, f: string)
    requires forall q :: q in ps ==> Fold(q.key) != f
    ensures Matching(ps, f) == []
  {
    if ps != [] {
      MatchingNone(ps[..|ps| - 1], f);
    }
  }

  /** Appending a pair extends exactly the group its key folds to. */
  lemma {:induction false} MatchingAppend(ps: seq<Pair>, p: Pair, f: string)
    ensures Matching(ps + [p], f) == Matching(ps, f) + (if Fold(p.key) == f then [p] else [])
  {
    assert (ps + [p])[..|ps|] == ps;
  }

  /** The first pair of a group is the first pair of the input with a
      matching key. */
  lemma {:induction false} MatchingFirst(ps: seq<Pair>, f: string)
    requires Matching(ps, f) != []
    ensures exists i :: 0 <= i < |ps| && Matching(ps, f)[0] == ps[i] && Fold(ps[i].key) == f
                        && forall j :: 0 <= j < i ==> Fold(ps[j].key) != f
  {
    var init := ps[..|ps| - 1];
    var last := ps[|ps| - 1];
    if Matching(init, f) == [] {
      assert Matching(ps, f)[0] == last;
      MatchingMembers(init, f);
      forall j | 0 <= j < |ps| - 1 ensures Fold(ps[j].key) != f {
        assert ps[j] == init[j];
        assert ps[j] !in Matching(init, f);
      }
    } else {
      MatchingFirst(init, f);
      var i :| 0 <= i < |init| && Matching(init, f)[0] == init[i] && Fold(init[i].key) == f
               && forall j :: 0 <= j < i ==> Fold(init[j].key) != f;
      assert ps[i] == init[i];
      forall j | 0 <= j < i ensures Fold(ps[j].key) != f {
        assert ps[j] == init[j];
      }
    }
  }

  /** The last pair of a group is the last pair of the input with a
      matching key. */
  lemma {:induction false} MatchingLast(ps: seq<Pair>, f: string)
    requires Matching(ps, f) != []
    ensures exists i :: 0 <= i < |ps| && Matching(ps, f)[|Matching(ps, f)| - 1] == ps[i]
                        && Fold(ps[i].key) == f
                        && forall j :: i < j < |ps| ==> Fold(ps[j].key) != f
  {
    var init := ps[..|ps| - 1];
    var last := ps[|ps| - 1];
    if Fold(last.key) != f {
      MatchingLast(init, f);
      var i :| 0 <= i < |init| && Matching(init, f)[|Matching(init, f)| - 1] == init[i]
               && Fold(init[i].key) == f
               && forall j :: i < j < |init| ==> Fold(init[j].key) != f;
      assert ps[i] == init[i];
      forall j | i < j < |ps| ensures Fold(ps[j].key) != f {
        if j < |ps| - 1 {
          assert ps[j] == init[j];
        }
      }
    }
  }

  /** The index of the group whose key matches `key`, or -1. */
  function FindGroup(gs: seq<Grouping>, key: string): (r: int)
    ensures -1 <= r < |gs|
    ensures r >= 0 ==> SameKey(gs[r].key, key)
    ensures r < 0 ==> forall i :: 0 <= i < |gs| ==> !SameKey(gs[i].key, key)
  {
    if gs == [] then -1
    else
      var r := FindGroup(gs[..|gs| - 1], key);
      if r >= 0 then r
      else if SameKey(gs[|gs| - 1].key, key) then |gs| - 1
      else -1
  }

  /** One step of `GroupBy`: the pair joins the group of its key, or opens a
      new group, keyed by its own spelling, at the end. */
  function AddToGroups(gs: seq<Grouping>, p: Pair): seq<Grouping> {
    var i := FindGroup(gs, p.key);
    if i < 0 then gs + [Grouping(p.key, [p])]
    else gs[i := Grouping(gs[i].key, gs[i].elements + [p])]
  }

  /** `Enumerable.GroupBy(p => p.Key, StringComparer.OrdinalIgnoreCase)`:
      groups in order of first appearance, each keyed by the key of its first
      pair. */
  function GroupBy(ps: seq<Pair>): seq<Grouping> {
    if ps == [] then []
    else AddToGroups(GroupBy(ps[..|ps| - 1]), ps[|ps| - 1])
  }

  /** Every group holds exactly the pairs whose key matches its own and
      starts with the pair that gave it its key. */
  predicate GroupsHold(ps: seq<Pair>, gs: seq<Grouping>) {
    forall i :: 0 <= i < |gs| ==>
      && gs[i].elements == Matching(ps, Fold(gs[i].key))
      && gs[i].elements != []
      && gs[i].key == gs[i].elements[0].key
  }

  /** No two groups share a key. */
  predicate KeysDistinct(gs: seq<Grouping>) {
    forall i, j :: 0 <= i < j < |gs| ==> !SameKey(gs[i].key, gs[j].key)
  }

  /** Every pair has a group. */
  predicate Covers(ps: seq<Pair>, gs: seq<Grouping>) {
    forall p :: p in ps ==> exists i :: 0 <= i < |gs| && SameKey(gs[i].key, p.key)
  }

  /** `gs` is a grouping of `ps`. */
  predicate GroupsOf(ps: seq<Pair>, gs: seq<Grouping>) {
    GroupsHold(ps, gs) && KeysDistinct(gs) && Covers(ps, gs)
  }

  /** A pair whose key matches no group opens a new one. */
  lemma {:induction false} AddNewGroup(ps: seq<Pair>, gs: seq<Grouping>, p: Pair)
    requires GroupsOf(ps, gs)
    requires forall i :: 0 <= i < |gs| ==> !SameKey(gs[i].key, p.key)
    ensures GroupsOf(ps + [p], gs + [Grouping(p.key, [p])])
  {
    var qs := ps + [p];
    var hs := gs + [Grouping(p.key, [p])];
    assert GroupsHold(qs, hs) by {
      forall k | 0 <= k < |gs| ensures Matching(qs, Fold(gs[k].key)) == gs[k].elements {
        MatchingAppend(ps, p, Fold(gs[k].key));
      }
      MatchingAppend(ps, p, Fold(p.key));
      forall q | q in ps ensures Fold(q.key) != Fold(p.key) {
        var k :| 0 <= k < |gs| && SameKey(gs[k].key, q.key);
      }
      MatchingNone(ps, Fold(p.key));
    }
    assert KeysDistinct(hs);
    assert Covers(qs, hs) by {
      forall q | q in qs ensures exists k :: 0 <= k < |hs| && SameKey(hs[k].key, q.key) {
        if q != p {
          var k :| 0 <= k < |gs| && SameKey(gs[k].key, q.key);
          assert hs[k] == gs[k];
        } else {
          assert SameKey(hs[|gs|].key, q.key);
        }
      }
    }
  }

  /** A pair whose key matches group `i` joins it. */
  lemma {:induction false} JoinGroup(ps: seq<Pair>, gs: seq<Grouping>, p: Pair, i: nat)
    requires GroupsOf(ps, gs)
    requires i < |gs| && SameKey(gs[i].key, p.key)
    ensures GroupsOf(ps + [p], gs[i := Grouping(gs[i].key, gs[i].elements + [p])])
  {
    var qs := ps + [p];
    var hs := gs[i := Grouping(gs[i].key, gs[i].elements + [p])];
    assert GroupsHold(qs, hs) by {
      forall k | 0 <= k < |gs| && k != i ensures Matching(qs, Fold(gs[k].key)) == gs[k].elements {
        assert !SameKey(gs[k].key, gs[i].key);
        MatchingAppend(ps, p, Fold(gs[k].key));
      }
      MatchingAppend(ps, p, Fold(gs[i].key));
    }
    assert KeysDistinct(hs);
    assert Covers(qs, hs) by {
      forall q | q in qs ensures exists k :: 0 <= k < |hs| && SameKey(hs[k].key, q.key) {
        if q != p {
          var k :| 0 <= k < |gs| && SameKey(gs[k].key, q.key);
          assert hs[k].key == gs[k].key;
        } else {
          assert SameKey(hs[i].key, q.key);
        }
      }
    }
  }

  /** `GroupBy` produces a grouping of its input. */
  lemma {:induction false} GroupByGroups(ps: seq<Pair>)
    ensures GroupsOf(ps, GroupBy(ps))
  {
    if ps != [] {
      var init := ps[..|ps| - 1];
      var p := ps[|ps| - 1];
      var gs := GroupBy(init);
      GroupByGroups(init);
      assert ps == init + [p];
      var i := FindGroup(gs, p.key);
      if i < 0 {
        AddNewGroup(init, gs, p);
      } else {
        JoinGroup(init, gs, p, i);
      }
    }
  }

  /** No pair up to index `a` has a key folding to `f`. */
  predicate NoneUpTo(ps: seq<Pair>, a: int, f: string) {
    forall b :: 0 <= b <= a && b < |ps| ==> Fold(ps[b].key) != f
  }

  /** A pair with key class `fi` comes before every pair of class `fj`. */
  predicate Precedes(ps: seq<Pair>, fi: string, fj: string) {
    exists a :: 0 <= a < |ps| && Fold(ps[a].key) == fi && NoneUpTo(ps, a, fj)
  }

  /** Groups come in order of first appearance: an earlier group's key class
      shows up in the input before any pair of a later group. */
  predicate InFirstAppearanceOrder(ps: seq<Pair>, gs: seq<Grouping>) {
    forall i, j :: 0 <= i < j < |gs| ==> Precedes(ps, Fold(gs[i].key), Fold(gs[j].key))
  }

  /** Appending a pair keeps what precedes what. */
  lemma {:induction false} PrecedesAppend(ps: seq<Pair>, p: Pair, fi: string, fj: string)
    requires Precedes(ps, fi, fj)
    ensures Precedes(ps + [p], fi, fj)
  {
    var qs := ps + [p];
    var a :| 0 <= a < |ps| && Fold(ps[a].key) == fi && NoneUpTo(ps, a, fj);
    assert qs[a] == ps[a];
    assert NoneUpTo(qs, a, fj) by {
      forall b | 0 <= b <= a && b < |qs| ensures Fold(qs[b].key) != fj {
        assert qs[b] == ps[b];
      }
    }
  }

  /** `GroupBy` lists its groups in order of first appearance. */
  lemma {:induction false} GroupByOrder(ps: seq<Pair>)
    ensures InFirstAppearanceOrder(ps, GroupBy(ps))
  {
    if ps != [] {
      var init := ps[..|ps| - 1];
      var p := ps[|ps| - 1];
      var gs0 := GroupBy(init);
      assert ps == init + [p];
      GroupByOrder(init);
      var k := FindGroup(gs0, p.key);
      if k < 0 {
        GroupByGroups(init);
        OrderNewGroup(init, p, gs0);
      } else {
        OrderSameKeys(init, p, gs0, GroupBy(ps));
      }
    }
  }

  /** A pair that joins a group leaves the order of the groups as it was. */
  lemma {:induction false} OrderSameKeys(ps: seq<Pair>, p: Pair, gs0: seq<Grouping>, gs: seq<Grouping>)
    requires InFirstAppearanceOrder(ps, gs0)
    requires |gs| == |gs0| && forall i :: 0 <= i < |gs| ==> gs[i].key == gs0[i].key
    ensures InFirstAppearanceOrder(ps + [p], gs)
  {
    forall i, j | 0 <= i < j < |gs| ensures Precedes(ps + [p], Fold(gs[i].key), Fold(gs[j].key)) {
      assert gs[i].key == gs0[i].key && gs[j].key == gs0[j].key;
      PrecedesAppend(ps, p, Fold(gs[i].key), Fold(gs[j].key));
    }
  }

  /** A pair that opens a new group comes after some pair of every earlier
      group, since no earlier pair shares its key. */
  lemma {:induction false} OrderNewGroup(ps: seq<Pair>, p: Pair, gs0: seq<Grouping>)
    requires InFirstAppearanceOrder(ps, gs0) && GroupsOf(ps, gs0)
    requires forall i :: 0 <= i < |gs0| ==> !SameKey(gs0[i].key, p.key)
    ensures InFirstAppearanceOrder(ps + [p], gs0 + [Grouping(p.key, [p])])
  {
    var qs := ps + [p];
    var gs := gs0 + [Grouping(p.key, [p])];
    forall i, j | 0 <= i < j < |gs| ensures Precedes(qs, Fold(gs[i].key), Fold(gs[j].key)) {
      assert gs[i] == gs0[i];
      if j < |gs0| {
        assert gs[j] == gs0[j];
        PrecedesAppend(ps, p, Fold(gs[i].key), Fold(gs[j].key));
      } else {
        NewKeyPrecededByGroup(ps, p, gs0, i);
      }
    }
  }

  lemma {:induction false} NewKeyPrecededByGroup(ps: seq<Pair>, p: Pair, gs0: seq<Grouping>, i: nat)
    requires GroupsOf(ps, gs0) && i < |gs0|
    requires forall g :: 0 <= g < |gs0| ==> !SameKey(gs0[g].key, p.key)
    ensures Precedes(ps + [p], Fold(gs0[i].key), Fold(p.key))
  {
    var qs := ps + [p];
    var q := gs0[i].elements[0];
    MatchingMembers(ps, Fold(gs0[i].key));
    assert q in Matching(ps, Fold(gs0[i].key));
    var a :| 0 <= a < |ps| && ps[a] == q;
    assert qs[a] == q;
    assert NoneUpTo(qs, a, Fold(p.key)) by {
      forall b | 0 <= b <= a && b < |qs| ensures Fold(qs[b].key) != Fold(p.key) {
        assert qs[b] == ps[b] && ps[b] in ps;
        var g :| 0 <= g < |gs0| && SameKey(gs0[g].key, ps[b].key);
      }
    }
  }

  // ------------------------------------------------------ to dictionary

  function Last(s: seq<Pair>): Pair
    requires s != []
  {
    s[|s| - 1]
  }

  /** `ToDictionary(g => g.Key, g => g.Last().Value)`: `None` stands for the
      exception thrown on a repeated key (compared ordinally) or on an empty
      group. */
  function ToDictionary(gs: seq<Grouping>): Option<map<string, string>> {
    if gs == [] then Some(map[])
    else
      var g := gs[|gs| - 1];
      match ToDictionary(gs[..|gs| - 1])
      case None => None
      case Some(m) =>
        if g.key in m || g.elements == [] then None
        else Some(m[g.key := Last(g.elements).value])
  }

  /** Groups with distinct keys and no empty group give one entry per group,
      holding the value of the group's last pair. */
  lemma {:induction false} ToDictionaryOfGroups(gs: seq<Grouping>)
    requires forall i :: 0 <= i < |gs| ==> gs[i].elements != []
    requires forall i, j :: 0 <= i < j < |gs| ==> gs[i].key != gs[j].key
    ensures ToDictionary(gs).Some?
    ensures forall k :: k in ToDictionary(gs).value <==> exists i :: 0 <= i < |gs| && gs[i].key == k
    ensures forall i :: 0 <= i < |gs| ==> ToDictionary(gs).value[gs[i].key] == Last(gs[i].elements).value
  {
    if gs != [] {
      var init := gs[..|gs| - 1];
      var g := gs[|gs| - 1];
      ToDictionaryOfGroups(init);
      var m := ToDictionary(init).value;
      forall i | 0 <= i < |init| ensures init[i].key != g.key {
        assert init[i] == gs[i];
      }
      var m' := ToDictionary(gs).value;
      assert m' == m[g.key := Last(g.elements).value];
      forall k ensures k in m' <==> exists i :: 0 <= i < |gs| && gs[i].key == k {
        if k in m && k != g.key {
          var i :| 0 <= i < |init| && init[i].key == k;
          assert gs[i].key == k;
        }
        if exists i :: 0 <= i < |gs| && gs[i].key == k {
          var i :| 0 <= i < |gs| && gs[i].key == k;
          if i < |init| {
            assert init[i].key == k;
          }
        }
      }
      forall i | 0 <= i < |gs| ensures m'[gs[i].key] == Last(gs[i].elements).value {
        if i < |init| {
          assert gs[i] == init[i];
          assert gs[i].key != g.key;
        }
      }
    }
  }

  /** A key repeated (ordinally) across groups makes `ToDictionary` throw. */
  lemma {:induction false} ToDictionaryRepeatedKey(gs: seq<Grouping>, i: nat, j: nat)
    requires i < j < |gs| && gs[i].key == gs[j].key
    ensures ToDictionary(gs).None?
  {
    var init := gs[..|gs| - 1];
    if j < |gs| - 1 {
      ToDictionaryRepeatedKey(init, i, j);
    } else if ToDictionary(init).Some? {
      ToDictionaryKeysPresent(init, i);
    }
  }

  /** Every group's key is in a dictionary that was built. */
  lemma {:induction false} ToDictionaryKeysPresent(gs: seq<Grouping>, i: nat)
    requires i < |gs| && ToDictionary(gs).Some?
    ensures gs[i].key in ToDictionary(gs).value
  {
    var init := gs[..|gs| - 1];
    if i < |gs| - 1 {
      assert init[i] == gs[i];
      ToDictionaryKeysPresent(init, i);
    }
  }

  /** `StringDictionaryContainer.Refresh`'s new dictionary. */
  function Refreshed(ps: seq<Pair>): (r: map<string, string>)
    ensures forall k :: k in r <==> Matching(ps, Fold(k)) != [] && Matching(ps, Fold(k))[0].key == k
    ensures forall k :: k in r ==> r[k] == Last(Matching(ps, Fold(k))).value
    ensures forall k, k' :: k in r && k' in r && SameKey(k, k') ==> k == k'
    ensures forall p :: p in ps ==> exists k :: k in r && SameKey(k, p.key)
  {
    var gs := GroupBy(ps);
    GroupByGroups(ps);
    assert forall i, j :: 0 <= i < j < |gs| ==> gs[i].key != gs[j].key;
    ToDictionaryOfGroups(gs);
    var m := ToDictionary(gs).value;
    RefreshedKeys(ps, gs, m);
    RefreshedValues(ps, gs, m);
    RefreshedOnePerGroup(ps, gs, m);
    m
  }

  lemma {:induction false} RefreshedKeys(ps: seq<Pair>, gs: seq<Grouping>, m: map<string, string>)
    requires GroupsOf(ps, gs)
    requires forall k :: k in m <==> exists i :: 0 <= i < |gs| && gs[i].key == k
    ensures forall k :: k in m <==> Matching(ps, Fold(k)) != [] && Matching(ps, Fold(k))[0].key == k
  {
    forall k | Matching(ps, Fold(k)) != [] && Matching(ps, Fold(k))[0].key == k
      ensures k in m
    {
      var q := Matching(ps, Fold(k))[0];
      MatchingMembers(ps, Fold(k));
      assert q in Matching(ps, Fold(k));
      var i :| 0 <= i < |gs| && SameKey(gs[i].key, q.key);
      assert gs[i].elements == Matching(ps, Fold(k));
    }
  }

  lemma {:induction false} RefreshedValues(ps: seq<Pair>, gs: seq<Grouping>, m: map<string, string>)
    requires GroupsHold(ps, gs)
    requires forall k :: k in m <==> exists i :: 0 <= i < |gs| && gs[i].key == k
    requires forall i :: 0 <= i < |gs| ==> m[gs[i].key] == Last(gs[i].elements).value
    ensures forall k :: k in m ==> m[k] == Last(Matching(ps, Fold(k))).value
  {
    forall k | k in m ensures m[k] == Last(Matching(ps, Fold(k))).value {
      var i :| 0 <= i < |gs| && gs[i].key == k;
    }
  }

  lemma {:induction false} RefreshedOnePerGroup(ps: seq<Pair>, gs: seq<Grouping>, m: map<string, string>)
    requires KeysDistinct(gs) && Covers(ps, gs)
    requires forall k :: k in m <==> exists i :: 0 <= i < |gs| && gs[i].key == k
    ensures forall k, k' :: k in m && k' in m && SameKey(k, k') ==> k == k'
    ensures forall p :: p in ps ==> exists k :: k in m && SameKey(k, p.key)
  {
    forall k, k' | k in m && k' in m && SameKey(k, k') ensures k == k' {
      var i :| 0 <= i < |gs| && gs[i].key == k;
      var j :| 0 <= j < |gs| && gs[j].key == k';
      assert !(i < j) && !(j < i);
    }
    forall p | p in ps ensures exists k :: k in m && SameKey(k, p.key) {
      var i :| 0 <= i < |gs| && SameKey(gs[i].key, p.key);
      assert gs[i].key in m;
    }
  }

  /** An empty pair list gives an empty dictionary. */
  lemma {:induction false} RefreshedEmpty()
    ensures Refreshed([]) == map[]
  {
    var r := Refreshed([]);
    forall k ensures k !in r {
      assert Matching([], Fold(k)) == [];
    }
  }

  /** The parameter dictionary and the pairs it is built from. */
  class StringDictionaryContainer {
    var values: seq<Pair>
    var dictionary: map<string, string>

    constructor()
      ensures values == [] && dictionary == map[]
    {
      values := [];
      dictionary := map[];
    }

    /** The dictionary is replaced wholesale by the grouping of the pairs. */
    method Refresh()
      modifies this
      ensures values == old(values)
      ensures dictionary == Refreshed(values)
    {
      dictionary := Refreshed(values);
    }
  }

  // ------------------------------------------------------------ snippets

  /** A named list of snippets. */
  datatype SnippetsCollection = SnippetsCollection(collectionName: string, snippets: seq<string>)

  /** `FirstOrDefault(c => c.collectionName == name)`. */
  function FirstNamed(collections: seq<SnippetsCollection>, name: string): (r: Option<nat>)
    ensures r.None? <==> forall i :: 0 <= i < |collections| ==> collections[i].collectionName != name
    ensures r.Some? ==> r.value < |collections| && collections[r.value].collectionName == name
                        && forall j :: 0 <= j < r.value ==> collections[j].collectionName != name
  {
    if collections == [] then None
    else if collections[0].collectionName == name then Some(0)
    else match FirstNamed(collections[1..], name)
      case None => None
      case Some(i) => Some(i + 1)
  }

  // ------------------------------------------------------------ settings

  /** A Unity `LocaleIdentifier`, identified by its code: Unity compares
      identifiers by `Code`, and a null code equals an empty one, so the
      null of `default(LocaleIdentifier)` is represented by "". */
  datatype LocaleIdentifier = LocaleIdentifier(code: string)

  /** `default(LocaleIdentifier)`. */
  const DefaultLocale: LocaleIdentifier := LocaleIdentifier("")

  class LocalizationKeyGeneratorSettings {
    var previewLocales: seq<LocaleIdentifier>
    var defaultKeyStringFormat: string
    var defaultCommentStringFormat: string
    var parameters: StringDictionaryContainer
    var snippetsCollection: seq<SnippetsCollection>
    var version: int

    constructor()
      ensures previewLocales == [] && snippetsCollection == []
      ensures defaultKeyStringFormat == "aa_bb" && defaultCommentStringFormat == ""
      ensures fresh(parameters) && parameters.values == [] && parameters.dictionary == map[]
      ensures version == 0
    {
      previewLocales := [];
      defaultKeyStringFormat := "aa_bb";
      defaultCommentStringFormat := "";
      parameters := new StringDictionaryContainer();
      snippetsCollection := [];
      version := 0;
    }

    /** The snippets of the first collection with exactly this name, or
        `None` (the `null` of the original). */
    function GetSnippetsCollection(collectionName: string): (r: Option<seq<string>>)
      reads this
      ensures r.None? <==> forall i :: 0 <= i < |snippetsCollection| ==>
                             snippetsCollection[i].collectionName != collectionName
      ensures r.Some? ==> exists i :: 0 <= i < |snippetsCollection|
                             && snippetsCollection[i].collectionName == collectionName
                             && r.value == snippetsCollection[i].snippets
                             && forall j :: 0 <= j < i ==> snippetsCollection[j].collectionName != collectionName
    {
      match FirstNamed(snippetsCollection, collectionName)
      case None => None
      case Some(i) => Some(snippetsCollection[i].snippets)
    }

    /** The preview locales after `Reset`, given the available locales. */
    static function DefaultPreviewLocales(available: seq<LocaleIdentifier>): (r: seq<LocaleIdentifier>)
      ensures available == [] ==> r == []
      ensures available != [] ==> |r| == 1 && r[0] == available[0]
    {
      if available == [] then [] else [available[0]]
    }

    method Reset(available: seq<LocaleIdentifier>)
      modifies this
      ensures previewLocales == DefaultPreviewLocales(available)
      ensures defaultKeyStringFormat == old(defaultKeyStringFormat)
      ensures defaultCommentStringFormat == old(defaultCommentStringFormat)
      ensures parameters == old(parameters) && snippetsCollection == old(snippetsCollection)
      ensures version == old(version)
    {
      if |available| == 0 {
        previewLocales := [];
        return;
      }
      previewLocales := [available[0]];
    }

    /** The parameters are rebuilt and the version moves on by one. */
    method OnValidate()
      modifies this, parameters
      ensures version == old(version) + 1
      ensures parameters == old(parameters)
      ensures parameters.values == old(parameters.values)
      ensures parameters.dictionary == Refreshed(parameters.values)
      ensures previewLocales == old(previewLocales) && snippetsCollection == old(snippetsCollection)
      ensures defaultKeyStringFormat == old(defaultKeyStringFormat)
      ensures defaultCommentStringFormat == old(defaultCommentStringFormat)
    {
      parameters.Refresh();
      version := version + 1;
    }
  }
}
