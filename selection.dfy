/** Which requests generate_core_classes makes for a given `:class` selection:
    "all" takes every listener and lifecycle class and never a direct-only activity;
    a simple class name takes exactly the entry of that name. */
module CoreSelection {
  import opened Wrappers
  import opened Sequences
  import opened Text
  import opened Generate
  import opened Batch

  /** The simple names of a catalogue's entries, in order. */
  function SimpleNames(c: Catalogue): seq<string> {
    match c
    case Listeners => ["OnClickListener", "OnItemClickListener"]
    case Lifecycle => ["Activity", "Service", "BroadcastReceiver", "View"]
    case DirectOnly => ["PreferenceActivity", "TabActivity"]
  }

  /** An entry of dot-free parts whose last part is the given simple name. */
  predicate WellFormedEntry(p: seq<string>, simple: string) {
    p != [] && p[|p| - 1] == simple && simple != [] && forall f :: f in p ==> '.' !in f
  }

  lemma ListenerParts(k: nat)
    requires k < 2
    ensures WellFormedEntry(Parts(Listeners)[k], SimpleNames(Listeners)[k])
  {
  }

  lemma LifecycleParts(k: nat)
    requires k < 4
    ensures WellFormedEntry(Parts(Lifecycle)[k], SimpleNames(Lifecycle)[k])
  {
  }

  lemma DirectOnlyParts(k: nat)
    requires k < 2
    ensures WellFormedEntry(Parts(DirectOnly)[k], SimpleNames(DirectOnly)[k])
  {
  }

  /** Every entry is made of dot-free parts, the last of them its simple name. */
  lemma PartsWellFormed(c: Catalogue, k: nat)
    requires k < |Parts(c)|
    ensures WellFormedEntry(Parts(c)[k], SimpleNames(c)[k])
  {
    match c
    case Listeners => ListenerParts(k);
    case Lifecycle => LifecycleParts(k);
    case DirectOnly => DirectOnlyParts(k);
  }

  /** `name.split(".")[-1]` of each catalogue entry is its simple name. */
  lemma MemberSimpleNames(c: Catalogue)
    ensures |SimpleNames(c)| == |Members(c)|
    ensures forall k :: 0 <= k < |Members(c)| ==> SimpleName(Members(c)[k]) == Some(SimpleNames(c)[k])
  {
    forall k | 0 <= k < |Members(c)|
      ensures SimpleName(Members(c)[k]) == Some(SimpleNames(c)[k])
    {
      PartsWellFormed(c, k);
      SimpleNameOfJoin(Parts(c)[k]);
    }
  }

  /** Under "all", a listener or lifecycle catalogue yields one request per entry, in order. */
  lemma {:induction false} PickedEvery(c: Catalogue, names: seq<string>, bp: BatchParams)
    requires c != DirectOnly && bp.selection == "all"
    ensures |Picked(c, names, bp)| == |names|
    ensures forall k :: 0 <= k < |names| ==> Picked(c, names, bp)[k] == Request(c, names[k], bp)
    decreases |names|
  {
    if names != [] {
      var init := names[..|names| - 1];
      var front := Picked(c, init, bp);
      var last := Request(c, names[|names| - 1], bp);
      PickedEvery(c, init, bp);
      assert forall k :: 0 <= k < |front| ==> front[k] == Request(c, names[k], bp) by {
        assert forall k :: 0 <= k < |init| ==> init[k] == names[k];
      }
      SnocMapped(names, front, last, n => Request(c, n, bp));
      assert Picked(c, names, bp) == front + [last];
    }
  }

  /** A catalogue none of whose entries is selected yields no request. */
  lemma {:induction false} PickedNone(c: Catalogue, names: seq<string>, bp: BatchParams)
    requires forall k :: 0 <= k < |names| ==> !Selected(c, bp.selection, names[k])
    ensures Picked(c, names, bp) == []
    decreases |names|
  {
    if names != [] {
      var init := names[..|names| - 1];
      assert forall k :: 0 <= k < |init| ==> init[k] == names[k];
      PickedNone(c, init, bp);
    }
  }

  /** A single selected entry yields its request. */
  lemma PickedSingle(c: Catalogue, names: seq<string>, bp: BatchParams)
    requires |names| == 1 && Selected(c, bp.selection, names[0])
    ensures Picked(c, names, bp) == [Request(c, names[0], bp)]
  {
    assert names[..0] == [];
  }

  /** The entries before and after `j`, none of them selected, yield nothing. */
  lemma PickedNoneAround(c: Catalogue, names: seq<string>, j: nat, bp: BatchParams)
    requires j < |names|
    requires forall k :: 0 <= k < |names| && k != j ==> !Selected(c, bp.selection, names[k])
    ensures Picked(c, names[..j], bp) == [] && Picked(c, names[j + 1..], bp) == []
  {
    var before := names[..j];
    var after := names[j + 1..];
    assert forall k :: 0 <= k < |before| ==> before[k] == names[k];
    PickedNone(c, before, bp);
    assert forall k :: 0 <= k < |after| ==> after[k] == names[j + 1 + k];
    PickedNone(c, after, bp);
  }

  /** A catalogue with exactly one selected entry yields exactly its request. */
  lemma PickedOne(c: Catalogue, names: seq<string>, j: nat, bp: BatchParams)
    requires j < |names| && Selected(c, bp.selection, names[j])
    requires forall k :: 0 <= k < |names| && k != j ==> !Selected(c, bp.selection, names[k])
    ensures Picked(c, names, bp) == [Request(c, names[j], bp)]
  {
    var before := names[..j];
    var single := [names[j]];
    var after := names[j + 1..];
    assert names == before + (single + after);
    PickedNoneAround(c, names, j, bp);
    PickedSingle(c, single, bp);
    PickedAppend(c, single, after, bp);
    PickedAppend(c, before, single + after, bp);
  }

  /** Under "all" no direct-only activity is picked. */
  lemma AllSkipsDirectOnly(bp: BatchParams)
    requires bp.selection == "all"
    ensures Picked(DirectOnly, Members(DirectOnly), bp) == []
  {
    MemberSimpleNames(DirectOnly);
    PickedNone(DirectOnly, Members(DirectOnly), bp);
  }

  /** With `:class => "all"` the batch asks, in this order, for the two listeners
      and then the four lifecycle classes. */
  lemma AllSelection(bp: BatchParams)
    requires bp.selection == "all"
    ensures var r := CoreRequests(bp);
      && |r| == 6
      && (forall k :: 0 <= k < 2 ==> r[k] == Request(Listeners, Members(Listeners)[k], bp))
      && (forall k :: 0 <= k < 4 ==> r[2 + k] == Request(Lifecycle, Members(Lifecycle)[k], bp))
  {
    PickedEvery(Listeners, Members(Listeners), bp);
    PickedEvery(Lifecycle, Members(Lifecycle), bp);
    AllSkipsDirectOnly(bp);
    AppendIndex(Picked(Listeners, Members(Listeners), bp), Picked(Lifecycle, Members(Lifecycle), bp),
      Picked(DirectOnly, Members(DirectOnly), bp));
  }

  /** "all" never generates PreferenceActivity or TabActivity. */
  lemma AllNeverDirectOnly(bp: BatchParams)
    requires bp.selection == "all"
    ensures forall k :: 0 <= k < |CoreRequests(bp)| ==>
      CoreRequests(bp)[k].klass.Some? && CoreRequests(bp)[k].klass.value !in Members(DirectOnly)
  {
    AllSelection(bp);
    var r := CoreRequests(bp);
    forall k | 0 <= k < |r|
      ensures r[k].klass.Some? && r[k].klass.value !in Members(DirectOnly)
    {
      var c, j := if k < 2 then Listeners else Lifecycle, if k < 2 then k else k - 2;
      var q := Members(c)[j];
      assert r[k] == Request(c, q, bp);
      DirectOnlyApart(c, j);
    }
  }

  /** No listener or lifecycle class is a direct-only activity: their simple names differ. */
  lemma DirectOnlyApart(c: Catalogue, k: nat)
    requires c != DirectOnly && k < |Members(c)|
    ensures Members(c)[k] !in Members(DirectOnly)
  {
    MemberSimpleNames(c);
    MemberSimpleNames(DirectOnly);
    forall j | 0 <= j < |Members(DirectOnly)|
      ensures Members(DirectOnly)[j] != Members(c)[k]
    {
      NamesUnambiguous(c, k, DirectOnly, j);
    }
  }

  /** The fields of the request for an entry with simple name `simple`: every class
      is named Ruboto + simple name; listeners go to org.ruboto.callbacks with the
      default template and options; lifecycle and direct-only classes go to
      org.ruboto with the caller's method options, onCreate and onReceive excluded,
      View taking the InheritingClass template, the other lifecycle classes their
      own Ruboto template and the direct-only activities the RubotoActivity one. */
  lemma RequestShape(c: Catalogue, q: string, simple: string, bp: BatchParams)
    requires SimpleName(q) == Some(simple)
    ensures var r := Request(c, q, bp);
      && r.klass == Some(q) && r.iface == None && r.name == "Ruboto" + simple
      && (c == Listeners ==>
            r.package == Some("org.ruboto.callbacks") && r.template == None
            && r.methodBase == None && r.methodInclude == None && r.methodExclude == None
            && r.implements == None && r.force == None)
      && (c != Listeners ==>
            r.package == Some("org.ruboto")
            && r.methodBase == Some(bp.methodBase) && r.methodInclude == Some(bp.methodInclude)
            && r.methodExclude == Some(LifecycleExclude(bp.methodExclude))
            && r.implements == Some(bp.implements) && r.force == Some(bp.force))
      && (c == Lifecycle ==>
            r.template == Some(if simple == "View" then "InheritingClass" else "Ruboto" + simple))
      && (c == DirectOnly ==> r.template == Some("RubotoActivity"))
  {
    match c
    case Listeners =>
    case Lifecycle =>
    case DirectOnly =>
  }

  /** The requests under "all", field by field: names, packages, templates and options. */
  lemma AllRequestFields(bp: BatchParams)
    requires bp.selection == "all"
    ensures var r := CoreRequests(bp);
      && |r| == 6
      && (forall k :: 0 <= k < 2 ==>
            && r[k].klass == Some(Members(Listeners)[k])
            && r[k].name == "Ruboto" + SimpleNames(Listeners)[k]
            && r[k].package == Some("org.ruboto.callbacks") && r[k].template == None
            && r[k].methodBase == None && r[k].methodInclude == None && r[k].methodExclude == None
            && r[k].implements == None && r[k].force == None)
      && (forall k :: 0 <= k < 4 ==>
            var simple := SimpleNames(Lifecycle)[k];
            && r[2 + k].klass == Some(Members(Lifecycle)[k])
            && r[2 + k].name == "Ruboto" + simple
            && r[2 + k].template == Some(if simple == "View" then "InheritingClass" else "Ruboto" + simple)
            && r[2 + k].package == Some("org.ruboto")
            && r[2 + k].methodBase == Some(bp.methodBase) && r[2 + k].methodInclude == Some(bp.methodInclude)
            && r[2 + k].methodExclude == Some(LifecycleExclude(bp.methodExclude))
            && r[2 + k].implements == Some(bp.implements) && r[2 + k].force == Some(bp.force))
  {
    AllSelection(bp);
    MemberSimpleNames(Listeners);
    MemberSimpleNames(Lifecycle);
    forall k | 0 <= k < 2 {
      RequestShape(Listeners, Members(Listeners)[k], SimpleNames(Listeners)[k], bp);
    }
    forall k | 0 <= k < 4 {
      RequestShape(Lifecycle, Members(Lifecycle)[k], SimpleNames(Lifecycle)[k], bp);
    }
  }

  /** The simple names of all three catalogues are distinct and none is "all". */
  lemma NamesUnambiguous(c: Catalogue, j: nat, d: Catalogue, k: nat)
    requires j < |SimpleNames(c)| && k < |SimpleNames(d)|
    ensures SimpleNames(c)[j] != "all"
    ensures SimpleNames(c)[j] == SimpleNames(d)[k] ==> c == d && j == k
  {
  }

  /** A catalogue whose simple names do not include the selection yields nothing. */
  lemma NotNamed(d: Catalogue, bp: BatchParams)
    requires bp.selection != "all"
    requires bp.selection !in SimpleNames(d)
    ensures Picked(d, Members(d), bp) == []
  {
    MemberSimpleNames(d);
    PickedNone(d, Members(d), bp);
  }

  /** The catalogue holding the selected simple name yields exactly its entry. */
  lemma NamedIn(c: Catalogue, j: nat, bp: BatchParams)
    requires j < |SimpleNames(c)| && bp.selection == SimpleNames(c)[j]
    ensures Picked(c, Members(c), bp) == [Request(c, Members(c)[j], bp)]
  {
    MemberSimpleNames(c);
    forall k | 0 <= k < |SimpleNames(c)|
      ensures SimpleNames(c)[k] != "all" && (k != j ==> SimpleNames(c)[k] != SimpleNames(c)[j])
    {
      NamesUnambiguous(c, k, c, j);
    }
    PickedOne(c, Members(c), j, bp);
  }

  /** With `:class` set to the simple name of a catalogue entry, the batch asks for that
      entry alone; this is the only way to get a direct-only activity. */
  lemma NamedSelection(c: Catalogue, j: nat, bp: BatchParams)
    requires j < |SimpleNames(c)| && bp.selection == SimpleNames(c)[j]
    ensures CoreRequests(bp) == [Request(c, Members(c)[j], bp)]
  {
    NamedIn(c, j, bp);
    forall d | d != c
      ensures Picked(d, Members(d), bp) == []
    {
      NamedElsewhere(c, j, d, bp);
    }
    AppendOnlyOne(Picked(Listeners, Members(Listeners), bp), Picked(Lifecycle, Members(Lifecycle), bp),
      Picked(DirectOnly, Members(DirectOnly), bp), [Request(c, Members(c)[j], bp)]);
  }

  /** The other catalogues yield nothing for a simple name of `c`. */
  lemma NamedElsewhere(c: Catalogue, j: nat, d: Catalogue, bp: BatchParams)
    requires j < |SimpleNames(c)| && bp.selection == SimpleNames(c)[j] && d != c
    ensures Picked(d, Members(d), bp) == []
  {
    NamesUnambiguous(c, j, c, j);
    forall k | 0 <= k < |SimpleNames(d)|
      ensures SimpleNames(d)[k] != bp.selection
    {
      NamesUnambiguous(c, j, d, k);
    }
    NotNamed(d, bp);
  }

  /** `:class => "PreferenceActivity"` generates RubotoPreferenceActivity in org.ruboto
      from the RubotoActivity template, and nothing else. */
  lemma PreferenceActivityRequest(bp: BatchParams)
    requires bp.selection == "PreferenceActivity"
    ensures var r := CoreRequests(bp);
      && |r| == 1
      && r[0].klass == Some(Members(DirectOnly)[0])
      && r[0].name == "RubotoPreferenceActivity"
      && r[0].template == Some("RubotoActivity")
      && r[0].package == Some("org.ruboto")
  {
    NamedSelection(DirectOnly, 0, bp);
    MemberSimpleNames(DirectOnly);
    RequestShape(DirectOnly, Members(DirectOnly)[0], SimpleNames(DirectOnly)[0], bp);
    RubotoPrefix("Ruboto", SimpleNames(DirectOnly)[0], "RubotoPreferenceActivity");
  }

  /** The class name of the PreferenceActivity request, spelled out. */
  lemma RubotoPrefix(prefix: string, simple: string, name: string)
    requires prefix == "Ruboto" && simple == "PreferenceActivity" && name == "RubotoPreferenceActivity"
    ensures prefix + simple == name
  {
  }
}
