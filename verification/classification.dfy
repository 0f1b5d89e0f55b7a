/** `_classify_peps`: the split of all PEPs into the nine lists of the
    "Index by Category" section of PEP 0. */
module Classification {
  import opened Wrappers
  import opened Sequences
  import opened Peps
  import opened Sorting

  datatype Category =
    | Meta | Info | Provisional | Accepted | Open
    | Finished | Historical | Deferred | Dead

  /** The nine lists, in the order the generator returns them. */
  datatype Categories = Categories(
    meta: seq<Pep>,
    info: seq<Pep>,
    provisional: seq<Pep>,
    accepted: seq<Pep>,
    open: seq<Pep>,
    finished: seq<Pep>,
    historical: seq<Pep>,
    deferred: seq<Pep>,
    dead: seq<Pep>)
  {
    /** The list that holds category `k`. */
    function List(k: Category): seq<Pep> {
      match k
      case Meta => meta
      case Info => info
      case Provisional => provisional
      case Accepted => accepted
      case Open => open
      case Finished => finished
      case Historical => historical
      case Deferred => deferred
      case Dead => dead
    }

    /** The same lists with the one for `k` replaced by `l`. */
    function With(k: Category, l: seq<Pep>): (r: Categories)
      ensures r.List(k) == l
      ensures forall k' :: k' != k ==> r.List(k') == List(k')
    {
      match k
      case Meta => this.(meta := l)
      case Info => this.(info := l)
      case Provisional => this.(provisional := l)
      case Accepted => this.(accepted := l)
      case Open => this.(open := l)
      case Finished => this.(finished := l)
      case Historical => this.(historical := l)
      case Deferred => this.(deferred := l)
      case Dead => this.(dead := l)
    }
  }

  /** Raised for a PEP that no rule places in a category. */
  datatype PepError = Unsorted(pep: Pep)

  /** `sub` occurs somewhere in `s` (Python's `sub in s`). */
  predicate Contains(s: string, sub: string)
    decreases |s|
  {
    |sub| <= |s| && (s[..|sub|] == sub || Contains(s[1..], sub))
  }

  /** `sub` occurs in `s` starting at index `i`. */
  predicate OccursAt(s: string, sub: string, i: int) {
    0 <= i <= |s| - |sub| && s[i..i + |sub|] == sub
  }

  /** `sub in s` holds exactly when `sub` occurs in `s` at some index. */
  lemma {:induction false} ContainsAt(s: string, sub: string)
    ensures Contains(s, sub) <==> exists i :: OccursAt(s, sub, i)
    decreases |s|
  {
    if |sub| <= |s| && s[..|sub|] == sub {
      assert OccursAt(s, sub, 0);
    } else if |sub| <= |s| {
      ContainsAt(s[1..], sub);
      if exists i :: OccursAt(s, sub, i) {
        var i :| OccursAt(s, sub, i);
        assert i != 0;
        assert OccursAt(s[1..], sub, i - 1) by {
          assert s[1..][i - 1..i - 1 + |sub|] == s[i..i + |sub|];
        }
      }
      if Contains(s[1..], sub) {
        var i :| OccursAt(s[1..], sub, i);
        assert OccursAt(s, sub, i + 1) by {
          assert s[1..][i..i + |sub|] == s[i + 1..i + 1 + |sub|];
        }
      }
    }
  }

  /** The statuses that make a non-Process PEP abandoned. */
  const DeadStatuses: set<string> := {"Rejected", "Withdrawn", "Incomplete", "Superseded"}

  /** Where a single PEP belongs, read as a decision list from the most
      to the least binding rule; `None` when no rule applies. This is the
      reference the filter-and-subtract chain of `Classify` is held to. */
  function Route(p: Pep): Option<Category> {
    if p.status == "Draft" then Some(Open)
    else if p.status == "Deferred" then Some(Deferred)
    else if p.pepType == "Process" then
      if p.status == "Active" then Some(Meta)
      else if p.status == "Withdrawn" || p.status == "Rejected" then Some(Dead)
      else Some(Historical)
    else if p.status in DeadStatuses then Some(Dead)
    else if p.pepType == "Informational" then
      if p.status == "Active" || !Contains(p.title, "Release Schedule") then Some(Info)
      else Some(Historical)
    else if p.status == "Provisional" then Some(Provisional)
    else if p.status == "Accepted" || p.status == "Active" then Some(Accepted)
    else if p.status == "Final" then Some(Finished)
    else None
  }

  // The selection conditions of the steps of the chain, in order.

  predicate IsDraft(p: Pep) { p.status == "Draft" }
  predicate IsDeferred(p: Pep) { p.status == "Deferred" }
  predicate IsProcess(p: Pep) { p.pepType == "Process" }
  predicate IsActiveProcess(p: Pep) { IsProcess(p) && p.status == "Active" }
  predicate IsDeadProcess(p: Pep) { IsProcess(p) && p.status in {"Withdrawn", "Rejected"} }
  predicate HasDeadStatus(p: Pep) { p.status in DeadStatuses }
  predicate IsInformational(p: Pep) { p.pepType == "Informational" }
  predicate IsCurrentInfo(p: Pep) {
    IsInformational(p) && (p.status == "Active" || !Contains(p.title, "Release Schedule"))
  }
  predicate IsProvisional(p: Pep) { p.status == "Provisional" }
  predicate IsAcceptedOrActive(p: Pep) { p.status in {"Accepted", "Active"} }
  predicate IsFinal(p: Pep) { p.status == "Final" }

  /** One filter-and-subtract step: the PEPs still remaining that
      `selects` holds of are appended, sorted, to the list for `into`. */
  datatype Step = Step(selects: Pep -> bool, into: Category)

  /** The eleven filter-and-subtract steps of `_classify_peps`, in the
      order the function runs them. */
  const Chain: seq<Step> := [
    Step(IsDraft, Open),
    Step(IsDeferred, Deferred),
    Step(IsActiveProcess, Meta),
    Step(IsDeadProcess, Dead),
    Step(IsProcess, Historical),
    Step(HasDeadStatus, Dead),
    Step(IsCurrentInfo, Info),
    Step(IsInformational, Historical),
    Step(IsProvisional, Provisional),
    Step(IsAcceptedOrActive, Accepted),
    Step(IsFinal, Finished)
  ]

  /** The nine lists before any step has run. */
  const NoCategories := Categories([], [], [], [], [], [], [], [], [])

  /** `sorted(pep for pep in remaining if selects(pep))`. */
  function Pick(remaining: seq<Pep>, selects: Pep -> bool): (r: seq<Pep>)
    ensures forall p :: p in r <==> p in remaining && selects(p)
    ensures SortedBy(r, NumberOrder)
    ensures Distinct(remaining) ==> Distinct(r)
  {
    SortPeps(Filter(remaining, selects))
  }

  /** `remaining -= {pep for pep in taken}`. */
  function Subtract(remaining: seq<Pep>, taken: seq<Pep>): (r: seq<Pep>)
    ensures forall p :: p in r <==> p in remaining && p !in taken
    ensures Distinct(remaining) ==> Distinct(r)
  {
    Filter(remaining, p => p !in taken)
  }

  /** Runs steps `i..` of `steps`. Each step appends what it picks to its
      list and then removes that whole list from `remaining`, as the
      source does (a list built in two steps is removed in full twice). */
  function RunSteps(steps: seq<Step>, i: nat, remaining: seq<Pep>, acc: Categories)
    : (seq<Pep>, Categories)
    requires i <= |steps|
    decreases |steps| - i
  {
    if i == |steps| then (remaining, acc)
    else
      var step := steps[i];
      var list := acc.List(step.into) + Pick(remaining, step.selects);
      RunSteps(steps, i + 1, Subtract(remaining, list), acc.With(step.into, list))
  }

  /** The index of the first step from `i` on that selects `p`, or
      `|steps|` when none does. */
  function FirstFrom(steps: seq<Step>, i: nat, p: Pep): (r: nat)
    requires i <= |steps|
    ensures i <= r <= |steps|
    ensures forall j :: i <= j < r ==> !steps[j].selects(p)
    ensures r < |steps| ==> steps[r].selects(p)
    decreases |steps| - i
  {
    if i == |steps| then i
    else if steps[i].selects(p) then i
    else FirstFrom(steps, i + 1, p)
  }

  /** The step of the chain that claims `p`, or `|Chain|` for none. */
  function Rank(p: Pep): (r: nat)
    ensures r <= |Chain|
  {
    FirstFrom(Chain, 0, p)
  }

  /** The state after steps `0..i-1` have run over the set `input`: the
      PEPs still remaining are those no earlier step selects, and each
      list holds exactly the PEPs claimed by an earlier step into it,
      without repetition, grouped by step and sorted by number within
      each group. */
  ghost predicate Stage(input: set<Pep>, i: nat, remaining: seq<Pep>, acc: Categories)
    requires i <= |Chain|
  {
    && Distinct(remaining)
    && (forall p :: p in remaining <==> p in input && Rank(p) >= i)
    && (forall k, p :: p in acc.List(k) <==> p in input && Rank(p) < i && Chain[Rank(p)].into == k)
    && (forall k :: Distinct(acc.List(k)))
    && (forall k :: RankOrdered(acc.List(k)))
  }

  /** Along `s`, PEPs claimed by an earlier step come first, and PEPs
      claimed by the same step are sorted by number. */
  ghost predicate RankOrdered(s: seq<Pep>) {
    forall i, j :: 0 <= i < j < |s| ==>
      Rank(s[i]) < Rank(s[j]) || (Rank(s[i]) == Rank(s[j]) && s[i].number <= s[j].number)
  }

  /** Appending a run of PEPs all claimed by step `n`, sorted by number,
      to a `RankOrdered` list of PEPs claimed before `n` keeps it so. */
  lemma AppendRun(a: seq<Pep>, b: seq<Pep>, n: nat)
    requires RankOrdered(a) && SortedBy(b, NumberOrder)
    requires forall p :: p in a ==> Rank(p) < n
    requires forall p :: p in b ==> Rank(p) == n
    ensures RankOrdered(a + b)
  {
  }

  /** One step of the chain moves the `Stage` invariant from `i` to `i + 1`. */
  lemma StepKeepsStage(input: set<Pep>, i: nat, remaining: seq<Pep>, acc: Categories)
    requires i < |Chain|
    requires Stage(input, i, remaining, acc)
    ensures var step := Chain[i];
      var list := acc.List(step.into) + Pick(remaining, step.selects);
      Stage(input, i + 1, Subtract(remaining, list), acc.With(step.into, list))
  {
    var step := Chain[i];
    var taken := Pick(remaining, step.selects);
    var list := acc.List(step.into) + taken;
    var remaining' := Subtract(remaining, list);
    var acc' := acc.With(step.into, list);
    forall p ensures p in taken <==> p in input && Rank(p) == i {
      if p in input && Rank(p) >= i && step.selects(p) {
        assert Rank(p) <= i;
      }
    }
    forall p ensures p in remaining' <==> p in input && Rank(p) >= i + 1 {
      if p in input && Rank(p) == i {
        assert p in taken;
      }
    }
    forall k, p ensures p in acc'.List(k) <==> p in input && Rank(p) < i + 1 && Chain[Rank(p)].into == k {
      if k == step.into {
        assert acc'.List(k) == list;
      } else {
        assert acc'.List(k) == acc.List(k);
      }
    }
    DistinctAppend(acc.List(step.into), taken);
    AppendRun(acc.List(step.into), taken, i);
    forall k ensures Distinct(acc'.List(k)) && RankOrdered(acc'.List(k)) {
      if k == step.into {
        assert acc'.List(k) == list;
      } else {
        assert acc'.List(k) == acc.List(k);
      }
    }
  }

  /** Running the remaining steps from a `Stage` reaches the final `Stage`. */
  lemma {:induction false} RunReachesLastStage(input: set<Pep>, i: nat, remaining: seq<Pep>, acc: Categories)
    requires i <= |Chain|
    requires Stage(input, i, remaining, acc)
    ensures Stage(input, |Chain|, RunSteps(Chain, i, remaining, acc).0, RunSteps(Chain, i, remaining, acc).1)
    decreases |Chain| - i
  {
    if i < |Chain| {
      var step := Chain[i];
      var list := acc.List(step.into) + Pick(remaining, step.selects);
      var remaining', acc' := Subtract(remaining, list), acc.With(step.into, list);
      assert RunSteps(Chain, i, remaining, acc) == RunSteps(Chain, i + 1, remaining', acc');
      StepKeepsStage(input, i, remaining, acc);
      RunReachesLastStage(input, i + 1, remaining', acc');
    }
  }

  /** The category the chain assigns to `p`: the target of the first step
      that selects it. */
  function Target(p: Pep): Option<Category> {
    if Rank(p) < |Chain| then Some(Chain[Rank(p)].into) else None
  }

  /** The step of the chain that fills list `k` with `p`: one step for
      most lists, the Process step or the later step for `dead` and
      `historical`. */
  function CategoryRank(k: Category, p: Pep): nat {
    match k
    case Open => 0
    case Deferred => 1
    case Meta => 2
    case Dead => if IsProcess(p) then 3 else 5
    case Historical => if IsProcess(p) then 4 else 7
    case Info => 6
    case Provisional => 8
    case Accepted => 9
    case Finished => 10
  }

  /** The step that claims `p`, read off the conditions in chain order. */
  lemma RankByConditions(p: Pep)
    ensures Rank(p) ==
      if IsDraft(p) then 0
      else if IsDeferred(p) then 1
      else if IsActiveProcess(p) then 2
      else if IsDeadProcess(p) then 3
      else if IsProcess(p) then 4
      else if HasDeadStatus(p) then 5
      else if IsCurrentInfo(p) then 6
      else if IsInformational(p) then 7
      else if IsProvisional(p) then 8
      else if IsAcceptedOrActive(p) then 9
      else if IsFinal(p) then 10
      else 11
  {
    assert Chain[0].selects(p) == IsDraft(p);
    assert Chain[1].selects(p) == IsDeferred(p);
    assert Chain[2].selects(p) == IsActiveProcess(p);
    assert Chain[3].selects(p) == IsDeadProcess(p);
    assert Chain[4].selects(p) == IsProcess(p);
    assert Chain[5].selects(p) == HasDeadStatus(p);
    assert Chain[6].selects(p) == IsCurrentInfo(p);
    assert Chain[7].selects(p) == IsInformational(p);
    assert Chain[8].selects(p) == IsProvisional(p);
    assert Chain[9].selects(p) == IsAcceptedOrActive(p);
    assert Chain[10].selects(p) == IsFinal(p);
  }

  /** The chain agrees with the decision list `Route`: the first step that
      selects a PEP sends it where `Route` does, and it is the step
      `CategoryRank` names for that list. */
  lemma ChainFollowsRoute(p: Pep)
    ensures Target(p) == Route(p)
    ensures Route(p).Some? ==> Rank(p) == CategoryRank(Route(p).value, p)
  {
    RankByConditions(p);
  }

  /** Each list holds exactly the PEPs of `peps` that `Route` sends to it. */
  ghost predicate PlacedByRoute(peps: seq<Pep>, c: Categories) {
    forall k, p :: p in c.List(k) <==> p in peps && Route(p) == Some(k)
  }

  /** The nine lists are pairwise disjoint and together hold exactly the
      PEPs of `peps`. */
  ghost predicate Partitions(peps: seq<Pep>, c: Categories) {
    && (forall k1, k2, p :: k1 != k2 && p in c.List(k1) ==> p !in c.List(k2))
    && (forall p :: p in peps <==> exists k :: p in c.List(k))
  }

  /** Lists filled according to `Route` are pairwise disjoint and, when
      every PEP has a route, together hold exactly the PEPs. */
  lemma RoutedListsPartition(peps: seq<Pep>, c: Categories)
    requires PlacedByRoute(peps, c)
    requires forall p :: p in peps ==> Route(p).Some?
    ensures Partitions(peps, c)
  {
    forall k1, k2, p | k1 != k2 && p in c.List(k1) ensures p !in c.List(k2) {
      assert Route(p) == Some(k1);
    }
    forall p | p in peps ensures exists k :: p in c.List(k) {
      assert p in c.List(Route(p).value);
    }
  }

  /** All steps of the chain, run over the set of the given PEPs. */
  function RunChain(peps: seq<Pep>): (seq<Pep>, Categories) {
    RunSteps(Chain, 0, Dedup(peps), NoCategories)
  }

  /** Before any step, everything of the deduplicated input remains and
      every list is empty. */
  lemma FirstStage(peps: seq<Pep>)
    ensures Stage(set p | p in peps, 0, Dedup(peps), NoCategories)
  {
    forall k ensures NoCategories.List(k) == [] {
    }
  }

  /** At the final stage, the PEPs remaining are those with no route and
      each list holds the PEPs routed to it. */
  lemma LastStageFollowsRoute(input: set<Pep>, rest: seq<Pep>, c: Categories)
    requires Stage(input, |Chain|, rest, c)
    ensures forall p :: p in rest <==> p in input && Route(p) == None
    ensures forall k, p :: p in c.List(k) <==> p in input && Route(p) == Some(k)
  {
    forall p ensures Target(p) == Route(p) {
      ChainFollowsRoute(p);
    }
  }

  /** Running the whole chain over the PEPs leaves exactly the PEPs with no
      route, and fills each list with exactly the PEPs routed to it,
      without repetition and grouped by step. */
  lemma RunFollowsRoute(peps: seq<Pep>)
    ensures forall p :: p in RunChain(peps).0 <==> p in peps && Route(p) == None
    ensures forall k, p :: p in RunChain(peps).1.List(k) <==> p in peps && Route(p) == Some(k)
    ensures forall k :: Distinct(RunChain(peps).1.List(k))
    ensures forall k :: RankOrdered(RunChain(peps).1.List(k))
  {
    var input := set p | p in peps;
    FirstStage(peps);
    RunReachesLastStage(input, 0, Dedup(peps), NoCategories);
    LastStageFollowsRoute(input, RunChain(peps).0, RunChain(peps).1);
  }

  /** What running the chain amounts to: PEPs are left over exactly when
      some PEP has no route, and otherwise the lists are placed by
      `Route`, partition the input, repeat nothing and are in order. */
  lemma ChainOutcome(peps: seq<Pep>)
    ensures (RunChain(peps).0 == []) == (forall p :: p in peps ==> Route(p).Some?)
    ensures RunChain(peps).0 != [] ==> RunChain(peps).0[0] in peps && Route(RunChain(peps).0[0]) == None
    ensures RunChain(peps).0 == [] ==>
      && PlacedByRoute(peps, RunChain(peps).1)
      && Partitions(peps, RunChain(peps).1)
      && (forall k :: Distinct(RunChain(peps).1.List(k)))
      && Ordered(RunChain(peps).1)
  {
    var run := RunChain(peps);
    RunFollowsRoute(peps);
    if run.0 != [] {
      assert run.0[0] in run.0;
    } else {
      RoutedListsPartition(peps, run.1);
      RoutedListsOrdered(run.1);
    }
  }

  /** `_classify_peps`. It fails exactly when some PEP has no route, and
      then reports such a PEP. On success every input PEP is in the list
      its `Route` names and in no other, so the nine lists partition the
      input; no list repeats a PEP, and each list is sorted by number,
      except that `historical` and `dead` are a sorted run of Process PEPs
      followed by a sorted run of the others. */
  function Classify(peps: seq<Pep>): (r: Result<Categories, PepError>)
    ensures r.Ok? <==> forall p :: p in peps ==> Route(p).Some?
    ensures r.Err? ==> r.error.pep in peps && Route(r.error.pep) == None
    ensures r.Ok? ==> PlacedByRoute(peps, r.value)
    ensures r.Ok? ==> Partitions(peps, r.value)
    ensures r.Ok? ==> forall k :: Distinct(r.value.List(k))
    ensures r.Ok? ==> Ordered(r.value)
  {
    ChainOutcome(peps);
    var run := RunChain(peps);
    if run.0 != [] then Err(Unsorted(run.0[0])) else Ok(run.1)
  }

  // The rules of `_classify_peps`, stated on its result.

  /** When the lists are placed by route, a PEP of the input is in
      exactly the list its route names. */
  lemma PlacedAt(peps: seq<Pep>, c: Categories, p: Pep)
    requires PlacedByRoute(peps, c)
    requires p in peps
    ensures p in c.open <==> Route(p) == Some(Open)
    ensures p in c.deferred <==> Route(p) == Some(Deferred)
    ensures p in c.meta <==> Route(p) == Some(Meta)
    ensures p in c.dead <==> Route(p) == Some(Dead)
    ensures p in c.historical <==> Route(p) == Some(Historical)
    ensures p in c.info <==> Route(p) == Some(Info)
    ensures p in c.provisional <==> Route(p) == Some(Provisional)
    ensures p in c.accepted <==> Route(p) == Some(Accepted)
    ensures p in c.finished <==> Route(p) == Some(Finished)
  {
    PlacedIn(peps, c, p, Open);
    PlacedIn(peps, c, p, Deferred);
    PlacedIn(peps, c, p, Meta);
    PlacedIn(peps, c, p, Dead);
    PlacedIn(peps, c, p, Historical);
    PlacedIn(peps, c, p, Info);
    PlacedIn(peps, c, p, Provisional);
    PlacedIn(peps, c, p, Accepted);
    PlacedIn(peps, c, p, Finished);
  }

  /** One instance of `PlacedByRoute`. */
  lemma PlacedIn(peps: seq<Pep>, c: Categories, p: Pep, k: Category)
    requires PlacedByRoute(peps, c)
    ensures p in c.List(k) <==> p in peps && Route(p) == Some(k)
  {
  }

  /** Two statuses win over every type rule: every Draft PEP is open, and
      every Deferred PEP is deferred. */
  lemma StatusBeforeType(peps: seq<Pep>, p: Pep)
    requires p in peps
    ensures Classify(peps).Ok? && p.status == "Draft" ==> p in Classify(peps).value.open
    ensures Classify(peps).Ok? && p.status == "Deferred" ==> p in Classify(peps).value.deferred
  {
    if Classify(peps).Ok? {
      var c := Classify(peps).value;
      assert PlacedByRoute(peps, c);
      PlacedAt(peps, c, p);
    }
  }

  /** A Process PEP that is neither Draft nor Deferred is meta when
      Active, dead when Withdrawn or Rejected, and historical otherwise;
      it is never informational, provisional, accepted or finished. */
  lemma ProcessRouting(peps: seq<Pep>, p: Pep)
    requires p in peps && IsProcess(p) && p.status != "Draft" && p.status != "Deferred"
    ensures Classify(peps).Ok? ==>
      var c := Classify(peps).value;
      && (p in c.meta <==> p.status == "Active")
      && (p in c.dead <==> p.status == "Withdrawn" || p.status == "Rejected")
      && (p in c.historical <==> p.status !in {"Active", "Withdrawn", "Rejected"})
      && p !in c.info && p !in c.provisional && p !in c.accepted && p !in c.finished
  {
    if Classify(peps).Ok? {
      var c := Classify(peps).value;
      assert PlacedByRoute(peps, c);
      PlacedAt(peps, c, p);
      if p.status == "Active" {
        assert Route(p) == Some(Meta);
      } else if p.status == "Withdrawn" || p.status == "Rejected" {
        assert Route(p) == Some(Dead);
      } else {
        assert Route(p) == Some(Historical);
      }
    }
  }

  /** Among the other PEPs that are neither Draft nor Deferred, an
      abandoned status means dead; otherwise an Informational PEP is
      informational when Active or when its title does not mention
      "Release Schedule", and historical when not. */
  lemma NonProcessRouting(peps: seq<Pep>, p: Pep)
    requires p in peps && !IsProcess(p) && p.status != "Draft" && p.status != "Deferred"
    ensures Classify(peps).Ok? ==>
      var c := Classify(peps).value;
      && (p.status in DeadStatuses ==> p in c.dead)
      && (p.status !in DeadStatuses && IsInformational(p) ==>
        && (p in c.info <==> p.status == "Active" || !Contains(p.title, "Release Schedule"))
        && (p in c.historical <==> p.status != "Active" && Contains(p.title, "Release Schedule")))
  {
    if Classify(peps).Ok? {
      var c := Classify(peps).value;
      assert PlacedByRoute(peps, c);
      PlacedAt(peps, c, p);
      if p.status in DeadStatuses {
        assert Route(p) == Some(Dead);
      } else if IsInformational(p) {
        var current := p.status == "Active" || !Contains(p.title, "Release Schedule");
        assert Route(p) == Some(if current then Info else Historical);
      }
    }
  }

  /** A PEP that no earlier rule places is placed by its status alone. */
  lemma StatusOnlyRouting(peps: seq<Pep>, p: Pep)
    requires p in peps && !IsProcess(p) && !IsInformational(p)
    requires p.status !in {"Draft", "Deferred"} && p.status !in DeadStatuses
    ensures Classify(peps).Ok? ==>
      var c := Classify(peps).value;
      && (p.status == "Provisional" ==> p in c.provisional)
      && (p.status == "Accepted" || p.status == "Active" ==> p in c.accepted)
      && (p.status == "Final" ==> p in c.finished)
  {
    if Classify(peps).Ok? {
      var c := Classify(peps).value;
      assert PlacedByRoute(peps, c);
      PlacedAt(peps, c, p);
    }
  }

  /** The PEPs no rule places, and so the PEPs that make `Classify` fail:
      neither Process nor Informational, with a status no rule names. */
  lemma UnroutedPeps(p: Pep)
    ensures Route(p) == None <==>
      && !IsProcess(p) && !IsInformational(p)
      && p.status !in {"Draft", "Deferred", "Provisional", "Accepted", "Active", "Final"}
      && p.status !in DeadStatuses
  {
  }

  /** Along `s`, every PEP satisfying `first` comes before every PEP that
      does not, and each of the two runs is sorted by number. */
  ghost predicate TwoSortedRuns(s: seq<Pep>, first: Pep -> bool) {
    forall i, j :: 0 <= i < j < |s| ==>
      && (first(s[j]) ==> first(s[i]))
      && (first(s[i]) == first(s[j]) ==> s[i].number <= s[j].number)
  }

  /** The order promised of each list: one sorted run for the lists built
      in one step, a run of Process PEPs followed by a run of the others
      for `historical` and `dead`, which are built in two. */
  ghost predicate Ordered(c: Categories) {
    && SortedBy(c.meta, NumberOrder)
    && SortedBy(c.info, NumberOrder)
    && SortedBy(c.provisional, NumberOrder)
    && SortedBy(c.accepted, NumberOrder)
    && SortedBy(c.open, NumberOrder)
    && SortedBy(c.finished, NumberOrder)
    && SortedBy(c.deferred, NumberOrder)
    && TwoSortedRuns(c.historical, IsProcess)
    && TwoSortedRuns(c.dead, IsProcess)
  }

  /** A `RankOrdered` list whose PEPs were all claimed by one step is
      sorted by number. */
  lemma OneRunSorted(s: seq<Pep>, n: nat)
    requires RankOrdered(s)
    requires forall p :: p in s ==> Rank(p) == n
    ensures SortedBy(s, NumberOrder)
  {
  }

  /** A `RankOrdered` list whose `first` PEPs were claimed by step `a` and
      whose other PEPs by the later step `b` is two sorted runs. */
  lemma TwoRunsSorted(s: seq<Pep>, first: Pep -> bool, a: nat, b: nat)
    requires a < b
    requires RankOrdered(s)
    requires forall p :: p in s ==> if first(p) then Rank(p) == a else Rank(p) == b
    ensures TwoSortedRuns(s, first)
  {
  }

  /** A list filled according to `Route` and grouped by step is one
      sorted run, or for `dead` and `historical` a sorted run of Process
      PEPs followed by a sorted run of the others. */
  lemma ListOrdered(c: Categories, k: Category)
    requires forall p :: p in c.List(k) ==> Route(p) == Some(k)
    requires RankOrdered(c.List(k))
    ensures k == Dead || k == Historical ==> TwoSortedRuns(c.List(k), IsProcess)
    ensures k != Dead && k != Historical ==> SortedBy(c.List(k), NumberOrder)
  {
    var s := c.List(k);
    forall p | p in s ensures Rank(p) == CategoryRank(k, p) {
      ChainFollowsRoute(p);
    }
    match k
    case Open => OneRunSorted(s, 0);
    case Deferred => OneRunSorted(s, 1);
    case Meta => OneRunSorted(s, 2);
    case Dead => TwoRunsSorted(s, IsProcess, 3, 5);
    case Historical => TwoRunsSorted(s, IsProcess, 4, 7);
    case Info => OneRunSorted(s, 6);
    case Provisional => OneRunSorted(s, 8);
    case Accepted => OneRunSorted(s, 9);
    case Finished => OneRunSorted(s, 10);
  }

  /** Lists filled according to `Route`, each grouped by step, are in the
      order `sorted` leaves them: one sorted run each, except `historical`
      and `dead`, which hold a sorted run of Process PEPs followed by a
      sorted run of the others. */
  lemma RoutedListsOrdered(c: Categories)
    requires forall k, p :: p in c.List(k) ==> Route(p) == Some(k)
    requires forall k :: RankOrdered(c.List(k))
    ensures Ordered(c)
  {
    ListOrdered(c, Open);
    ListOrdered(c, Deferred);
    ListOrdered(c, Meta);
    ListOrdered(c, Dead);
    ListOrdered(c, Historical);
    ListOrdered(c, Info);
    ListOrdered(c, Provisional);
    ListOrdered(c, Accepted);
    ListOrdered(c, Finished);
  }
}
