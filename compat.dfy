/** Version-compatibility checks of build.rb: `check_methods` on the inherited
    methods and `get_class_or_interface` on the class or interface itself. */
module Compat {
  import opened Wrappers
  import opened Sequences
  import opened Api

  /** Pass one keeps a method when it exists somewhere in min..target. */
  predicate InScope(m: ApiMethod, min: int, target: int) {
    AtMost(m.added, target) && Above(m.deprecated, min) && Above(m.removed, min)
  }

  /** Pass two keeps a method when it is not removed by the target version. */
  predicate PresentAtTarget(m: ApiMethod, target: int) {
    Above(m.removed, target)
  }

  /** Pass three keeps a method present and not deprecated over all of min..target. */
  predicate StableAcross(m: ApiMethod, min: int, target: int) {
    AtMost(m.added, min) && Above(m.deprecated, target)
  }

  /** The three silent selects of pass one, in the source's order. */
  function PassOne(methods: seq<ApiMethod>, min: int, target: int): (r: seq<ApiMethod>)
    ensures forall m :: m in r <==> m in methods && InScope(m, min, target)
  {
    var byAdded := Filter(methods, (m: ApiMethod) => AtMost(m.added, target));
    var byDeprecated := Filter(byAdded, (m: ApiMethod) => Above(m.deprecated, min));
    Filter(byDeprecated, (m: ApiMethod) => Above(m.removed, min))
  }

  /** The list after passes one and two. */
  function PassTwo(methods: seq<ApiMethod>, min: int, target: int): (r: seq<ApiMethod>)
    ensures forall m :: m in r <==> m in methods && InScope(m, min, target) && PresentAtTarget(m, target)
  {
    Filter(PassOne(methods, min, target), m => PresentAtTarget(m, target))
  }

  /** The diagnostics of pass two, one per method it drops, in order. */
  function RemovedNotes(scoped: seq<ApiMethod>, target: int): (r: seq<Diagnostic>)
    ensures forall d :: d in r ==> d.RemovedIn? && d.m in scoped && !PresentAtTarget(d.m, target)
  {
    var dropped := Filter(scoped, m => !PresentAtTarget(m, target));
    assert forall k :: 0 <= k < |dropped| ==> dropped[k] in dropped;
    seq(|dropped|, k requires 0 <= k < |dropped| => RemovedIn(dropped[k]))
  }

  /** The diagnostic pass three prints for a method it drops: the added check
      comes first, so a method failing both is reported as added. */
  function ConflictNote(m: ApiMethod, min: int): Diagnostic {
    if !AtMost(m.added, min) then AddedIn(m) else DeprecatedIn(m)
  }

  /** The diagnostics of pass three, one per method it drops, in order. */
  function ConflictNotes(present: seq<ApiMethod>, min: int, target: int): (r: seq<Diagnostic>)
    ensures forall d :: d in r ==> !d.RemovedIn? && d.m in present && !StableAcross(d.m, min, target)
  {
    var dropped := Filter(present, m => !StableAcross(m, min, target));
    assert forall k :: 0 <= k < |dropped| ==> dropped[k] in dropped;
    seq(|dropped|, k requires 0 <= k < |dropped| => ConflictNote(dropped[k], min))
  }

  /** The methods check_methods returns and the lines it printed. */
  datatype Selection = Selection(kept: seq<ApiMethod>, notes: seq<Diagnostic>)

  /** check_methods: the three passes, aborting when pass three (run only without
      force) drops anything. */
  function CheckMethods(methods: seq<ApiMethod>, min: int, target: int, force: bool): (r: Result<Selection, Error>)
    ensures force ==> r.Ok?
    ensures r.Ok? ==> forall m :: m in r.value.kept ==>
      AtMost(m.added, target) && Above(m.deprecated, min) && Above(m.removed, target)
    ensures r.Ok? && !force ==> forall m :: m in r.value.kept ==>
      AtMost(m.added, min) && Above(m.deprecated, target)
  {
    var scoped := PassOne(methods, min, target);
    var present := Filter(scoped, m => PresentAtTarget(m, target));
    var notes := RemovedNotes(scoped, target);
    if force then
      Ok(Selection(present, notes))
    else
      var stable := Filter(present, m => StableAcross(m, min, target));
      if |present| != |stable| then
        Err(Aborting(notes + ConflictNotes(present, min, target)))
      else
        Ok(Selection(stable, notes))
  }

  /** check_methods returns an order-preserving subsequence of its input. */
  lemma CheckMethodsPreservesOrder(methods: seq<ApiMethod>, min: int, target: int, force: bool)
    requires CheckMethods(methods, min, target, force).Ok?
    ensures IsSubsequence(CheckMethods(methods, min, target, force).value.kept, methods)
  {
    CheckMethodsReturnsPassTwo(methods, min, target, force);
    PassTwoIsOneSelect(methods, min, target);
  }

  /** Pass one and pass two together are one select by their conjunction. */
  lemma PassTwoIsOneSelect(methods: seq<ApiMethod>, min: int, target: int)
    ensures PassTwo(methods, min, target)
      == Filter(methods, m => InScope(m, min, target) && PresentAtTarget(m, target))
  {
    var a := (m: ApiMethod) => AtMost(m.added, target);
    var b := (m: ApiMethod) => Above(m.deprecated, min);
    var c := (m: ApiMethod) => Above(m.removed, min);
    var d := (m: ApiMethod) => PresentAtTarget(m, target);
    var ab := (m: ApiMethod) => a(m) && b(m);
    var abc := (m: ApiMethod) => ab(m) && c(m);
    var all := (m: ApiMethod) => InScope(m, min, target) && PresentAtTarget(m, target);
    FilterFilter(methods, a, b, ab);
    FilterFilter(methods, ab, c, abc);
    FilterFilter(methods, abc, d, all);
  }

  /** Whatever is returned is what passes one and two leave: pass three either
      drops nothing or aborts. */
  lemma CheckMethodsReturnsPassTwo(methods: seq<ApiMethod>, min: int, target: int, force: bool)
    requires CheckMethods(methods, min, target, force).Ok?
    ensures CheckMethods(methods, min, target, force).value.kept == PassTwo(methods, min, target)
    ensures CheckMethods(methods, min, target, force).value.notes == RemovedNotes(PassOne(methods, min, target), target)
  {
    var present := PassTwo(methods, min, target);
    if !force {
      FilterKeepsAll(present, m => StableAcross(m, min, target));
    }
  }

  /** A method survives exactly when it is in range at both ends (and, without
      force, stable across the range). */
  lemma CheckMethodsKeepsExactly(methods: seq<ApiMethod>, min: int, target: int, force: bool, m: ApiMethod)
    requires CheckMethods(methods, min, target, force).Ok?
    ensures m in CheckMethods(methods, min, target, force).value.kept
      <==> m in methods && InScope(m, min, target) && PresentAtTarget(m, target)
           && (force || StableAcross(m, min, target))
  {
    CheckMethodsReturnsPassTwo(methods, min, target, force);
    PassTwoIsOneSelect(methods, min, target);
  }

  /** Without force, check_methods aborts exactly when some method survives
      passes one and two but is not stable over min..target; with force it
      never aborts. */
  lemma CheckMethodsAbortsIff(methods: seq<ApiMethod>, min: int, target: int, force: bool)
    ensures CheckMethods(methods, min, target, force).Err? <==>
      !force && exists m :: m in methods && InScope(m, min, target) && PresentAtTarget(m, target)
                             && !StableAcross(m, min, target)
  {
    var present := PassTwo(methods, min, target);
    FilterKeepsAll(present, m => StableAcross(m, min, target));
    PassTwoIsOneSelect(methods, min, target);
  }

  /** Pass two prints one removal line per in-scope method of the input removed by
      the target, in input order, and no other line. */
  lemma RemovedNotesName(methods: seq<ApiMethod>, min: int, target: int)
    ensures var notes := RemovedNotes(PassOne(methods, min, target), target);
      var dropped := Filter(methods, m => InScope(m, min, target) && !PresentAtTarget(m, target));
      && |notes| == |dropped|
      && (forall k :: 0 <= k < |notes| ==> notes[k] == RemovedIn(dropped[k]))
      && (forall m :: RemovedIn(m) in notes <==>
            m in methods && InScope(m, min, target) && !PresentAtTarget(m, target))
  {
    var a := (m: ApiMethod) => AtMost(m.added, target);
    var b := (m: ApiMethod) => Above(m.deprecated, min);
    var c := (m: ApiMethod) => Above(m.removed, min);
    var d := (m: ApiMethod) => !PresentAtTarget(m, target);
    var ab := (m: ApiMethod) => a(m) && b(m);
    var abc := (m: ApiMethod) => ab(m) && c(m);
    var gone := (m: ApiMethod) => InScope(m, min, target) && !PresentAtTarget(m, target);
    FilterFilter(methods, a, b, ab);
    FilterFilter(methods, ab, c, abc);
    FilterFilter(methods, abc, d, gone);
    RemovedMembers(RemovedNotes(PassOne(methods, min, target), target), Filter(methods, gone));
  }

  /** Removal lines naming the methods of `dropped` one by one name exactly those methods. */
  lemma RemovedMembers(notes: seq<Diagnostic>, dropped: seq<ApiMethod>)
    requires |notes| == |dropped|
    requires forall k :: 0 <= k < |notes| ==> notes[k] == RemovedIn(dropped[k])
    ensures forall m :: RemovedIn(m) in notes <==> m in dropped
  {
    forall m ensures RemovedIn(m) in notes <==> m in dropped {
      if RemovedIn(m) in notes {
        var k :| 0 <= k < |notes| && notes[k] == RemovedIn(m);
        assert dropped[k] == m;
      }
      if m in dropped {
        var k :| 0 <= k < |dropped| && dropped[k] == m;
        assert notes[k] == RemovedIn(m);
      }
    }
  }

  /** Pass three prints one line per method that survives passes one and two but
      is not stable over min..target, in input order: an added line when it was
      added after the minimum, otherwise a deprecated line. */
  lemma ConflictNotesName(methods: seq<ApiMethod>, min: int, target: int)
    ensures var notes := ConflictNotes(PassTwo(methods, min, target), min, target);
      var dropped := Filter(methods, m => InScope(m, min, target) && PresentAtTarget(m, target)
                                          && !StableAcross(m, min, target));
      && |notes| == |dropped|
      && (forall k :: 0 <= k < |notes| ==> notes[k] == ConflictNote(dropped[k], min))
      && (forall m :: AddedIn(m) in notes <==>
            m in methods && InScope(m, min, target) && PresentAtTarget(m, target) && !AtMost(m.added, min))
      && (forall m :: DeprecatedIn(m) in notes <==>
            m in methods && InScope(m, min, target) && PresentAtTarget(m, target)
            && AtMost(m.added, min) && !Above(m.deprecated, target))
      && (forall m :: RemovedIn(m) !in notes)
  {
    ConflictsInInputOrder(methods, min, target);
    ConflictMembers(ConflictNotes(PassTwo(methods, min, target), min, target),
      Filter(methods, m => InScope(m, min, target) && PresentAtTarget(m, target) && !StableAcross(m, min, target)),
      min);
  }

  /** The methods pass three drops are the input's usable but unstable methods,
      in input order. */
  lemma ConflictsInInputOrder(methods: seq<ApiMethod>, min: int, target: int)
    ensures Filter(PassTwo(methods, min, target), m => !StableAcross(m, min, target))
      == Filter(methods, m => InScope(m, min, target) && PresentAtTarget(m, target) && !StableAcross(m, min, target))
  {
    var usable := (m: ApiMethod) => InScope(m, min, target) && PresentAtTarget(m, target);
    var e := (m: ApiMethod) => !StableAcross(m, min, target);
    var conflict := (m: ApiMethod) => InScope(m, min, target) && PresentAtTarget(m, target) && !StableAcross(m, min, target);
    PassTwoIsOneSelect(methods, min, target);
    FilterFilter(methods, usable, e, conflict);
  }

  /** Pass-three lines naming the methods of `dropped` one by one: an added line for
      each one added after the minimum, a deprecated line for each other one. */
  lemma ConflictMembers(notes: seq<Diagnostic>, dropped: seq<ApiMethod>, min: int)
    requires |notes| == |dropped|
    requires forall k :: 0 <= k < |notes| ==> notes[k] == ConflictNote(dropped[k], min)
    ensures forall m :: AddedIn(m) in notes <==> m in dropped && !AtMost(m.added, min)
    ensures forall m :: DeprecatedIn(m) in notes <==> m in dropped && AtMost(m.added, min)
    ensures forall m :: RemovedIn(m) !in notes
  {
    forall m ensures AddedIn(m) in notes <==> m in dropped && !AtMost(m.added, min)
      ensures DeprecatedIn(m) in notes <==> m in dropped && AtMost(m.added, min)
      ensures RemovedIn(m) !in notes
    {
      if AddedIn(m) in notes {
        var k :| 0 <= k < |notes| && notes[k] == AddedIn(m);
        assert dropped[k] == m;
      }
      if DeprecatedIn(m) in notes {
        var k :| 0 <= k < |notes| && notes[k] == DeprecatedIn(m);
        assert dropped[k] == m;
      }
      if m in dropped {
        var k :| 0 <= k < |dropped| && dropped[k] == m;
        assert notes[k] == ConflictNote(m, min);
      }
    }
  }

  /** On abort the lines are pass two's removal lines followed by pass three's
      lines, so each line names a method of the input and says why it was
      dropped, and every dropped method gets its line. */
  lemma AbortReportsEachConflict(methods: seq<ApiMethod>, min: int, target: int)
    requires CheckMethods(methods, min, target, false).Err?
    ensures var notes := CheckMethods(methods, min, target, false).error.notes;
      && notes == RemovedNotes(PassOne(methods, min, target), target)
                  + ConflictNotes(PassTwo(methods, min, target), min, target)
      && (forall m :: RemovedIn(m) in notes <==>
            m in methods && InScope(m, min, target) && !PresentAtTarget(m, target))
      && (forall m :: AddedIn(m) in notes <==>
            m in methods && InScope(m, min, target) && PresentAtTarget(m, target) && !AtMost(m.added, min))
      && (forall m :: DeprecatedIn(m) in notes <==>
            m in methods && InScope(m, min, target) && PresentAtTarget(m, target)
            && AtMost(m.added, min) && !Above(m.deprecated, target))
  {
    var removed := RemovedNotes(PassOne(methods, min, target), target);
    var conflicts := ConflictNotes(PassTwo(methods, min, target), min, target);
    RemovedNotesName(methods, min, target);
    ConflictNotesName(methods, min, target);
    assert forall x :: x in removed ==> x.RemovedIn?;
    assert forall x :: x in removed + conflicts <==> x in removed || x in conflicts;
  }

  /** A list whose methods all pass passes one and two goes through them unchanged
      and without diagnostics. */
  lemma PassesKeepUsable(s: seq<ApiMethod>, min: int, target: int)
    requires forall m :: m in s ==> InScope(m, min, target) && PresentAtTarget(m, target)
    ensures PassOne(s, min, target) == s
    ensures PassTwo(s, min, target) == s
    ensures RemovedNotes(s, target) == []
  {
    var byAdded := Filter(s, (m: ApiMethod) => AtMost(m.added, target));
    FilterKeepsAll(s, (m: ApiMethod) => AtMost(m.added, target));
    FilterKeepsAll(byAdded, (m: ApiMethod) => Above(m.deprecated, min));
    var byDeprecated := Filter(byAdded, (m: ApiMethod) => Above(m.deprecated, min));
    FilterKeepsAll(byDeprecated, (m: ApiMethod) => Above(m.removed, min));
    FilterKeepsAll(s, m => PresentAtTarget(m, target));
    FilterKeepsNone(s, m => !PresentAtTarget(m, target));
  }

  /** Running check_methods on its own output with the same arguments returns
      the same list, prints nothing and does not abort. */
  lemma CheckMethodsIdempotent(methods: seq<ApiMethod>, min: int, target: int, force: bool)
    requires CheckMethods(methods, min, target, force).Ok?
    ensures var kept := CheckMethods(methods, min, target, force).value.kept;
      CheckMethods(kept, min, target, force) == Ok(Selection(kept, []))
  {
    var kept := CheckMethods(methods, min, target, force).value.kept;
    forall m | m in kept
      ensures InScope(m, min, target) && PresentAtTarget(m, target)
      ensures !force ==> StableAcross(m, min, target)
    {
      CheckMethodsKeepsExactly(methods, min, target, force, m);
    }
    PassesKeepUsable(kept, min, target);
    if !force {
      FilterKeepsAll(kept, m => StableAcross(m, min, target));
    }
  }

  /** get_class_or_interface: not found aborts first; without force the class must
      exist at the minimum and not be deprecated at the target; even with force
      it must not be removed at the target. */
  function GetClassOrInterface(klass: string, found: Option<Element>, min: int, target: int, force: bool)
    : (r: Result<Element, Error>)
    ensures r.Ok? <==> found.Some? && Above(found.value.removed, target)
                       && (force || (AtMost(found.value.added, min) && Above(found.value.deprecated, target)))
    ensures r.Ok? ==> r.value == found.value
    ensures found.None? ==> r == Err(NotFound(klass))
  {
    if found.None? then Err(NotFound(klass))
    else
      var e := found.value;
      if !force && !AtMost(e.added, min) then Err(NotInMinSdk(klass, e.added.value))
      else if !force && !Above(e.deprecated, target) then Err(DeprecatedForTarget(klass, e.deprecated.value))
      else if !Above(e.removed, target) then Err(RemovedForTarget(klass, e.removed.value))
      else Ok(e)
  }

  /** The removal check runs even with force; without force the added check is
      reported before the deprecated one, and both before the removal. */
  lemma GuardErrorOrder(klass: string, e: Element, min: int, target: int, force: bool)
    ensures var r := GetClassOrInterface(klass, Some(e), min, target, force);
      && ((!force && !AtMost(e.added, min)) ==> r == Err(NotInMinSdk(klass, e.added.value)))
      && ((!force && AtMost(e.added, min) && !Above(e.deprecated, target))
          ==> r == Err(DeprecatedForTarget(klass, e.deprecated.value)))
      && ((force || StableElement(e, min, target)) && !Above(e.removed, target)
          ==> r == Err(RemovedForTarget(klass, e.removed.value)))
  {
  }

  predicate StableElement(e: Element, min: int, target: int) {
    AtMost(e.added, min) && Above(e.deprecated, target)
  }

  /** Force only relaxes the guard: whatever passes without force passes with it,
      unchanged. */
  lemma GuardForceRelaxes(klass: string, found: Option<Element>, min: int, target: int)
    requires GetClassOrInterface(klass, found, min, target, false).Ok?
    ensures GetClassOrInterface(klass, found, min, target, true)
            == GetClassOrInterface(klass, found, min, target, false)
  {
  }
}
