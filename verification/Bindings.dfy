/**
 Account bindings and the home pass over a convoy's requesters
 (crates/flotilla-admission/src/account_access.rs), written through versioned records
 (crates/flotilla-store/src/account_records.rs).
 */
module Bindings {
  import opened Outcomes
  import opened Text
  import opened Addresses
  import opened Accounts

  datatype State =
    | Open | Closed(reason: string, deliveredUntil: Option<int>) | Revoked(reason: string, deliveredUntil: Option<int>)

  datatype Epoch = Epoch(text: string, observedAt: int)

  datatype Binding = Binding(
    requester: Address, item: string, requirement: string, credential: string, account: Option<string>,
    grants: map<string, string>, candidates: set<string>, exclusions: map<string, string>, selection: Selection,
    epochs: seq<Epoch>, openedAt: int, state: State, since: int)

  /** The bindings by name. */
  type Table = map<string, Binding>

  const TEARDOWN := "requester teardown"
  const NO_GRANT := "binding revoked: no authorizing grant"
  const REPLACED := "replacement refused"
  const SNAPSHOT_PIN := "admitted workflow snapshot"

  // ---- Names ----

  function Dashed(access: string): string {
    if access == "" then "" else [if access[0] == ':' then '-' else access[0]] + Dashed(access[1..])
  }

  /** Every colon becomes a dash and everything else stays. */
  lemma {:induction false} DashedIs(access: string)
    ensures |Dashed(access)| == |access|
    ensures forall i | 0 <= i < |access| :: Dashed(access)[i] == if access[i] == ':' then '-' else access[i]
  {
    if access != "" {
      DashedIs(access[1..]);
    }
  }

  function BindingName(convoy: string, role: string, access: string): string {
    convoy + "." + role + "." + Dashed(access)
  }

  /** Different requesters can share a name: the parts are joined with dots, and colons become dashes. */
  lemma NamesCollide()
    ensures BindingName("a", "b.c", "x") == BindingName("a.b", "c", "x")
    ensures BindingName("a", "b", "x:y") == BindingName("a", "b", "x-y")
  {
    assert Dashed("x") == "x" + Dashed("") by { assert "x"[1..] == ""; }
    assert "a" + "." + "b.c" + "." + "x" == "a.b" + "." + "c" + "." + "x";
    var colon, dash := "x:y", "x-y";
    assert colon[1..] == ":y" && dash[1..] == "-y" && ":y"[1..] == "y" && "-y"[1..] == "y";
  }

  /** Who a binding is for: a role of a convoy, and the access it requires. */
  datatype Key = Key(convoy: string, role: string, access: string)

  function KeyName(key: Key): string {
    BindingName(key.convoy, key.role, key.access)
  }

  /** No dot in the convoy or the role. */
  predicate Dotless(key: Key) {
    '.' !in key.convoy && '.' !in key.role
  }

  /** Without dots in convoy and role, a name is shared exactly by equal convoys, roles and dashed accesses. */
  lemma DotlessNames(a: Key, b: Key)
    requires Dotless(a) && Dotless(b)
    ensures KeyName(a) == KeyName(b) <==>
            a.convoy == b.convoy && a.role == b.role && Dashed(a.access) == Dashed(b.access)
  {
    hide Dashed;
    var x, y := a.role + "." + Dashed(a.access), b.role + "." + Dashed(b.access);
    assert KeyName(a) == a.convoy + "." + x && KeyName(b) == b.convoy + "." + y;
    SplitOnceOf(a.convoy, '.', x);
    SplitOnceOf(b.convoy, '.', y);
    SplitOnceOf(a.role, '.', Dashed(a.access));
    SplitOnceOf(b.role, '.', Dashed(b.access));
  }

  /** Different keys have different names. */
  ghost predicate NamedApart(keys: iset<Key>) {
    forall a, b | a in keys && b in keys && KeyName(a) == KeyName(b) :: a == b
  }

  /** Dotless keys are named apart exactly when no role has two accesses that differ only in colons and dashes. */
  lemma DotlessApart(keys: iset<Key>)
    requires forall key | key in keys :: Dotless(key)
    ensures NamedApart(keys) <==>
            forall a, b | a in keys && b in keys && a.convoy == b.convoy && a.role == b.role
                          && Dashed(a.access) == Dashed(b.access) :: a.access == b.access
  {
    hide BindingName, Dashed;
    forall a, b | a in keys && b in keys
      ensures KeyName(a) == KeyName(b) <==>
              a.convoy == b.convoy && a.role == b.role && Dashed(a.access) == Dashed(b.access)
    {
      DotlessNames(a, b);
    }
  }

  // ---- Epochs ----

  /** An epoch's number, read as an unsigned 32-bit integer; anything else counts as zero. */
  function ParseEpoch(text: string): U32 {
    var digits := if text != "" && text[0] == '+' then text[1..] else text;
    if digits != "" && IsDigits(digits) && DigitsValue(digits) < U32_LIMIT then DigitsValue(digits) else 0
  }

  /** A positive epoch is read exactly from its number, with a plus sign or leading zeros or none, in 32 bits. */
  lemma EpochExactly(text: string, epoch: nat)
    requires epoch > 0
    ensures ParseEpoch(text) == epoch <==> epoch < 0x1_0000_0000 && IsPositive(text, epoch)
  {
    hide DigitsValue, IsPositive;
    PositiveExactly(text, epoch);
  }

  lemma ParseOfPrintedEpoch(epoch: U32)
    ensures ParseEpoch(NatText(epoch)) == epoch
  {
    DigitsValueOfNatText(epoch);
    assert IsDigit(NatText(epoch)[0]);
  }

  function CurrentEpoch(binding: Binding): U32 {
    if binding.epochs == [] then 0 else ParseEpoch(binding.epochs[|binding.epochs| - 1].text)
  }

  /** The epochs a binding has observed strictly increase. */
  ghost predicate Lineage(binding: Binding) {
    forall i | 1 <= i < |binding.epochs| :: ParseEpoch(binding.epochs[i - 1].text) < ParseEpoch(binding.epochs[i].text)
  }

  lemma {:induction false} LineageAtLeast(binding: Binding, i: nat)
    requires Lineage(binding) && i < |binding.epochs|
    ensures ParseEpoch(binding.epochs[i].text) >= i
  {
    hide ParseEpoch;
    if i > 0 {
      LineageAtLeast(binding, i - 1);
    }
  }

  /** A lineage always has room for a greater epoch: there are only so many 32-bit numbers. */
  lemma LineageHasRoom(binding: Binding, epoch: U32)
    requires Lineage(binding) && epoch > CurrentEpoch(binding)
    ensures |binding.epochs| < U32_LIMIT
  {
    hide ParseEpoch;
    if binding.epochs != [] {
      LineageAtLeast(binding, |binding.epochs| - 1);
    }
  }

  // ---- One binding's turn in the home pass ----

  function Find(alternatives: seq<Alternative>, role: string, access: string): Option<Alternative> {
    if alternatives == [] then None
    else if alternatives[0].requester.role == role && alternatives[0].requester.access == access
        then Some(alternatives[0])
    else Find(alternatives[1..], role, access)
  }

  datatype Judgement = Stand | Revoke(reason: string) | Follow(grants: map<string, string>, next: Option<U32>)

  /** What the current alternatives say of an open binding. */
  function Judge(binding: Binding, alternatives: seq<Alternative>): Judgement {
    match RequesterParts(binding.requester)
    case None => Stand
    case Some((_, role)) =>
      match Find(alternatives, role, binding.requirement)
      case None => Revoke(NO_GRANT)
      case Some(alternative) =>
        if binding.credential !in alternative.candidates then Revoke(NO_GRANT)
        else
          var candidate := alternative.candidates[binding.credential];
          var newer := candidate.epoch > CurrentEpoch(binding);
          if newer && candidate.account != binding.account then Revoke(REPLACED)
          else Follow(candidate.grants, if newer then Some(candidate.epoch) else None)
  }

  function Ended(binding: Binding, state: State, now: int): Binding {
    binding.(state := state, since := now)
  }

  function Observed(binding: Binding, next: Option<U32>, now: int): Binding {
    if next.None? then binding else binding.(epochs := binding.epochs + [Epoch(NatText(next.value), now)])
  }

  function Reconciled(binding: Binding, alternatives: seq<Alternative>, until: Option<int>, now: int): Binding {
    match Judge(binding, alternatives)
    case Stand => binding
    case Revoke(reason) => Ended(binding, Revoked(reason, until), now)
    case Follow(grants, next) => Observed(binding.(grants := grants), next, now)
  }

  /**
   A binding's history may only do this: end, follow its grants, and observe greater epochs. Ended, it
   stays as it is.
   */
  ghost predicate Evolves(before: Binding, after: Binding) {
    && after == before.(grants := after.grants, epochs := after.epochs, state := after.state, since := after.since)
    && (before.state.Open? || after == before)
    && before.epochs <= after.epochs
    && forall i | 1 <= i && |before.epochs| <= i < |after.epochs| ::
         ParseEpoch(after.epochs[i - 1].text) < ParseEpoch(after.epochs[i].text)
  }

  lemma EvolvesTransitive(a: Binding, b: Binding, c: Binding)
    requires Evolves(a, b) && Evolves(b, c)
    ensures Evolves(a, c)
  {
    hide ParseEpoch;
  }

  lemma EvolvesLineage(a: Binding, b: Binding)
    requires Evolves(a, b) && Lineage(a)
    ensures Lineage(b)
  {
    hide ParseEpoch;
    forall i | 1 <= i < |b.epochs|
      ensures ParseEpoch(b.epochs[i - 1].text) < ParseEpoch(b.epochs[i].text)
    {
      if i < |a.epochs| {
        assert b.epochs[i] == a.epochs[i] && b.epochs[i - 1] == a.epochs[i - 1];
      }
    }
  }

  lemma ObservedEvolves(binding: Binding, next: Option<U32>, now: int)
    requires binding.state.Open? && (next.Some? ==> next.value > CurrentEpoch(binding))
    ensures Evolves(binding, Observed(binding, next, now))
    ensures next.Some? ==> CurrentEpoch(Observed(binding, next, now)) == next.value
  {
    hide ParseEpoch;
    if next.Some? {
      ParseOfPrintedEpoch(next.value);
    }
  }

  lemma ReconciledEvolves(binding: Binding, alternatives: seq<Alternative>, until: Option<int>, now: int)
    requires binding.state.Open?
    ensures Evolves(binding, Reconciled(binding, alternatives, until, now))
  {
    hide ParseEpoch, Find, RequesterParts;
    match Judge(binding, alternatives)
    case Stand =>
    case Revoke(_) =>
    case Follow(grants, next) =>
      ObservedEvolves(binding.(grants := grants), next, now);
  }

  /** Against the same alternatives a second turn changes nothing, whenever it comes. */
  lemma ReconciledSettles(
    binding: Binding, alternatives: seq<Alternative>, until: Option<int>, now: int, laterUntil: Option<int>, later: int)
    requires binding.state.Open?
    ensures var once := Reconciled(binding, alternatives, until, now);
            once.state.Open? ==> Reconciled(once, alternatives, laterUntil, later) == once
  {
    hide ParseEpoch, Find, RequesterParts;
    match Judge(binding, alternatives)
    case Stand =>
    case Revoke(_) =>
    case Follow(grants, next) =>
      ObservedEvolves(binding.(grants := grants), next, now);
  }

  /** Roles are unique across a convoy, so each requester is listed once. */
  ghost predicate ListedOnce(alternatives: seq<Alternative>) {
    forall i, j | 0 <= i < j < |alternatives| ::
      !(alternatives[i].requester.role == alternatives[j].requester.role
          && alternatives[i].requester.access == alternatives[j].requester.access)
  }

  lemma {:induction false} FindListed(alternatives: seq<Alternative>, i: nat)
    requires ListedOnce(alternatives) && i < |alternatives|
    ensures Find(alternatives, alternatives[i].requester.role, alternatives[i].requester.access) ==
              Some(alternatives[i])
  {
    if i > 0 {
      FindListed(alternatives[1..], i - 1);
    }
  }

  lemma {:induction false} FoundIsListed(alternatives: seq<Alternative>, role: string, access: string)
    ensures var found := Find(alternatives, role, access);
            found.Some? ==>
                found.value in alternatives && found.value.requester.role == role
                    && found.value.requester.access == access
  {
    if alternatives != [] {
      FoundIsListed(alternatives[1..], role, access);
    }
  }

  /**
   The alternative still lets the binding stand: its credential is authorized, and no newer login is for
   another account.
   */
  predicate Sustains(alternative: Alternative, binding: Binding, role: string) {
    && alternative.requester.role == role && alternative.requester.access == binding.requirement
    && binding.credential in alternative.candidates
    && var candidate := alternative.candidates[binding.credential];
       candidate.epoch <= CurrentEpoch(binding) || candidate.account == binding.account
  }

  /**
   A turn leaves a binding open exactly when some alternative sustains it, and then it has that
   candidate's grants and the greater epoch.
   */
  lemma StaysOpenExactly(
    binding: Binding, alternatives: seq<Alternative>, until: Option<int>, now: int, convoy: string, role: string)
    requires binding.state.Open? && RequesterParts(binding.requester) == Some((convoy, role))
             && ListedOnce(alternatives)
    ensures var after := Reconciled(binding, alternatives, until, now);
            && (after.state.Open? <==> exists i | 0 <= i < |alternatives| :: Sustains(alternatives[i], binding, role))
            && forall i | 0 <= i < |alternatives| && Sustains(alternatives[i], binding, role) ::
                 var candidate := alternatives[i].candidates[binding.credential];
                 && after.grants == candidate.grants
                 && CurrentEpoch(after) == if candidate.epoch > CurrentEpoch(binding) then candidate.epoch
                   else CurrentEpoch(binding)
  {
    hide ParseEpoch, RequesterParts, Find;
    FoundIsListed(alternatives, role, binding.requirement);
    forall i | 0 <= i < |alternatives| && Sustains(alternatives[i], binding, role)
      ensures Find(alternatives, role, binding.requirement) == Some(alternatives[i])
    {
      FindListed(alternatives, i);
    }
    match Judge(binding, alternatives)
    case Stand =>
    case Revoke(_) =>
    case Follow(grants, next) =>
      ObservedEvolves(binding.(grants := grants), next, now);
      var found := Find(alternatives, role, binding.requirement).value;
      var i :| 0 <= i < |alternatives| && alternatives[i] == found;
      assert Sustains(alternatives[i], binding, role);
  }

  // ---- The home pass over a convoy ----

  /** A pass's convoy and what it finds: the alternatives as grants stand, what vessels carry, what is delivered. */
  datatype Input = Input(
    convoy: string, project: Option<string>, terminal: bool, alternatives: Option<seq<Alternative>>,
    refs: map<string, seq<string>>, delivered: set<string>, now: int)

  predicate InConvoy(binding: Binding, convoy: string) {
    var parts := RequesterParts(binding.requester);
    parts.Some? && parts.value.0 == convoy
  }

  function Until(input: Input, name: string): Option<int> {
    if name in input.delivered then Some(input.now) else None
  }

  /** What the pass makes of one binding. */
  function Passed(input: Input, name: string, binding: Binding): Binding {
    if !binding.state.Open? || !InConvoy(binding, input.convoy) then binding
    else if input.terminal then Ended(binding, Closed(TEARDOWN, Until(input, name)), input.now)
    else if input.alternatives.None? then binding
    else Reconciled(binding, input.alternatives.value, Until(input, name), input.now)
  }

  function PassTable(input: Input, table: Table): Table {
    map name | name in table :: Passed(input, name, table[name])
  }

  // ---- What a pass means for each binding ----

  /** The alternative at `i` is the first for this role and access. */
  predicate FirstFor(alternatives: seq<Alternative>, role: string, access: string, i: nat) {
    && i < |alternatives|
    && alternatives[i].requester.role == role && alternatives[i].requester.access == access
    && forall k | 0 <= k < i ::
         alternatives[k].requester.role != role || alternatives[k].requester.access != access
  }

  /** The first alternative for the role and access authorizes the credential. */
  predicate AuthorizedFirst(alternatives: seq<Alternative>, role: string, binding: Binding, i: nat) {
    FirstFor(alternatives, role, binding.requirement, i) && binding.credential in alternatives[i].candidates
  }

  /**
   An open binding against the alternatives. Unauthorized, it is revoked; with a newer login for another
   account, it is revoked as replaced; otherwise it takes its candidate's grants and appends a newer epoch.
   */
  ghost predicate IsReconciled(
    before: Binding, alternatives: seq<Alternative>, role: string, until: Option<int>, now: int, after: Binding)
  {
    && ((forall i: nat :: !AuthorizedFirst(alternatives, role, before, i)) ==>
          after == before.(state := Revoked("binding revoked: no authorizing grant", until), since := now))
    && forall i: nat | AuthorizedFirst(alternatives, role, before, i) ::
         var candidate := alternatives[i].candidates[before.credential];
         var n := |before.epochs|;
         var newer := if n == 0 then candidate.epoch > 0 else candidate.epoch > ParseEpoch(before.epochs[n - 1].text);
         if !newer then after == before.(grants := candidate.grants)
         else if candidate.account != before.account then
           after == before.(state := Revoked("replacement refused", until), since := now)
         else
           after == before.(
             grants := candidate.grants, epochs := before.epochs + [Epoch(NatText(candidate.epoch), now)])
  }

  /**
   A pass leaves ended bindings and those of other convoys alone. When its convoy is terminal it closes the
   others for teardown; otherwise it reconciles them, if there is a workflow. What it ends was delivered
   until now exactly when some place holds a copy.
   */
  ghost predicate IsPassed(input: Input, name: string, before: Binding, after: Binding) {
    var until := if name in input.delivered then Some(input.now) else None;
    match RequesterParts(before.requester)
    case Some((convoy, role)) =>
      if !before.state.Open? || convoy != input.convoy then after == before
      else if input.terminal then
        after == before.(state := Closed("requester teardown", until), since := input.now)
      else if input.alternatives.None? then after == before
      else IsReconciled(before, input.alternatives.value, role, until, input.now, after)
    case None => after == before
  }

  lemma {:induction false} FindIsFirst(alternatives: seq<Alternative>, role: string, access: string, i: nat)
    ensures FirstFor(alternatives, role, access, i) ==> Find(alternatives, role, access) == Some(alternatives[i])
    decreases i
  {
    if i > 0 && alternatives != [] {
      FindIsFirst(alternatives[1..], role, access, i - 1);
      if FirstFor(alternatives, role, access, i) {
        assert forall k | 0 <= k < i - 1 :: alternatives[1..][k] == alternatives[k + 1];
      }
    }
  }

  lemma {:induction false} FoundHasFirst(alternatives: seq<Alternative>, role: string, access: string) returns (i: nat)
    requires Find(alternatives, role, access).Some?
    ensures FirstFor(alternatives, role, access, i)
  {
    if alternatives[0].requester.role == role && alternatives[0].requester.access == access {
      i := 0;
    } else {
      i := FoundHasFirst(alternatives[1..], role, access);
      assert forall k | 0 <= k < i :: alternatives[1..][k] == alternatives[k + 1];
      i := i + 1;
    }
  }

  lemma ReconciledMeans(
    binding: Binding, alternatives: seq<Alternative>, convoy: string, role: string, until: Option<int>, now: int)
    requires RequesterParts(binding.requester) == Some((convoy, role))
    ensures IsReconciled(binding, alternatives, role, until, now, Reconciled(binding, alternatives, until, now))
  {
    hide ParseEpoch, RequesterParts, Find, FirstFor;
    var found := Find(alternatives, role, binding.requirement);
    forall i: nat | FirstFor(alternatives, role, binding.requirement, i)
      ensures i < |alternatives| && found == Some(alternatives[i])
    {
      FindIsFirst(alternatives, role, binding.requirement, i);
      FirstInRange(alternatives, role, binding.requirement, i);
    }
    if found.Some? {
      var i := FoundHasFirst(alternatives, role, binding.requirement);
      assert found == Some(alternatives[i]);
      if binding.credential in found.value.candidates {
        assert AuthorizedFirst(alternatives, role, binding, i);
      }
    }
  }

  lemma FirstInRange(alternatives: seq<Alternative>, role: string, access: string, i: nat)
    requires FirstFor(alternatives, role, access, i)
    ensures i < |alternatives|
  {
  }

  /** The pass does to every binding what it means to. */
  lemma PassedMeans(input: Input, name: string, binding: Binding)
    ensures IsPassed(input, name, binding, Passed(input, name, binding))
  {
    hide ParseEpoch, RequesterParts, Reconciled, IsReconciled;
    match RequesterParts(binding.requester)
    case None =>
    case Some((convoy, role)) =>
      if input.alternatives.Some? {
        ReconciledMeans(binding, input.alternatives.value, convoy, role, Until(input, name), input.now);
      }
  }

  /** A binding, open or ended, of this requester for this access. */
  predicate Binds(binding: Binding, convoy: string, role: string, access: string) {
    RequesterParts(binding.requester) == Some((convoy, role)) && binding.requirement == access
  }

  predicate Bound(table: Table, convoy: string, role: string, access: string) {
    exists name | name in table :: Binds(table[name], convoy, role, access)
  }

  /** A requester found without a binding, and the one credential its vessel already carries. */
  datatype Unbound = Unbound(alternative: Alternative, carried: Option<string>)

  function Authorized(refs: seq<string>, candidates: map<string, Candidate>): seq<string> {
    if refs == [] then []
    else (if refs[0] in candidates then [refs[0]] else []) + Authorized(refs[1..], candidates)
  }

  function Carried(input: Input, alternative: Alternative): Option<string> {
    if alternative.requester.vessel !in input.refs then None
    else
      var carried := Authorized(input.refs[alternative.requester.vessel], alternative.candidates);
      if |carried| == 1 then Some(carried[0]) else None
  }

  lemma {:induction false} AuthorizedSpec(refs: seq<string>, candidates: map<string, Candidate>)
    ensures forall name :: name in Authorized(refs, candidates) <==> name in refs && name in candidates
  {
    if refs != [] {
      assert refs == [refs[0]] + refs[1..];
      AuthorizedSpec(refs[1..], candidates);
    }
  }

  /** One place among the vessel's credentials holds a candidate, and this is it. */
  predicate OnlyCandidate(refs: seq<string>, candidates: map<string, Candidate>, i: nat) {
    i < |refs| && refs[i] in candidates && forall k | 0 <= k < |refs| && k != i :: refs[k] !in candidates
  }

  lemma AuthorizedNone(refs: seq<string>, candidates: map<string, Candidate>)
    ensures Authorized(refs, candidates) == [] <==> forall k | 0 <= k < |refs| :: refs[k] !in candidates
  {
    AuthorizedSpec(refs, candidates);
    if Authorized(refs, candidates) == [] {
      assert forall k | 0 <= k < |refs| :: refs[k] in refs;
    } else {
      var other := Authorized(refs, candidates)[0];
      assert other in Authorized(refs, candidates);
    }
  }

  lemma {:induction false} AuthorizedOne(refs: seq<string>, candidates: map<string, Candidate>, name: string)
    ensures Authorized(refs, candidates) == [name] <==>
            exists i: nat :: OnlyCandidate(refs, candidates, i) && refs[i] == name
  {
    if refs != [] {
      var rest := refs[1..];
      assert forall k | 0 < k < |refs| :: refs[k] == rest[k - 1];
      assert Authorized(refs, candidates) ==
             (if refs[0] in candidates then [refs[0]] else []) + Authorized(rest, candidates);
      hide Authorized;
      if refs[0] in candidates {
        AuthorizedNone(rest, candidates);
        FirstIsOnly(refs, candidates);
        var others := Authorized(rest, candidates);
        assert Authorized(refs, candidates) == [refs[0]] + others;
        assert ([refs[0]] + others)[0] == refs[0] && |[refs[0]] + others| == 1 + |others|;
        assert others == [] ==> [refs[0]] + others == [refs[0]] && OnlyCandidate(refs, candidates, 0);
      } else {
        AuthorizedOne(rest, candidates, name);
        assert [] + Authorized(rest, candidates) == Authorized(rest, candidates);
        forall i: nat
          ensures OnlyCandidate(refs, candidates, i) <==> i > 0 && OnlyCandidate(rest, candidates, i - 1)
        {
        }
        if i: nat :| OnlyCandidate(rest, candidates, i) && rest[i] == name {
          assert OnlyCandidate(refs, candidates, i + 1);
        }
      }
    }
  }

  /** When the first is a candidate, it is the only one exactly when the rest are not, and no other is. */
  lemma FirstIsOnly(refs: seq<string>, candidates: map<string, Candidate>)
    requires refs != [] && refs[0] in candidates
    ensures OnlyCandidate(refs, candidates, 0) <==> forall k | 0 <= k < |refs[1..]| :: refs[1..][k] !in candidates
    ensures forall i: nat | OnlyCandidate(refs, candidates, i) :: i == 0
  {
    assert forall k | 0 < k < |refs| :: refs[k] == refs[1..][k - 1];
  }

  /** A credential is carried exactly when it is the one candidate among what the vessel carries, listed once. */
  lemma CarriedExactly(input: Input, alternative: Alternative, name: string)
    ensures Carried(input, alternative) == Some(name) <==>
            && alternative.requester.vessel in input.refs
            && var refs := input.refs[alternative.requester.vessel];
               exists i: nat :: OnlyCandidate(refs, alternative.candidates, i) && refs[i] == name
  {
    if alternative.requester.vessel in input.refs {
      var refs := input.refs[alternative.requester.vessel];
      AuthorizedOne(refs, alternative.candidates, name);
      var authorized := Authorized(refs, alternative.candidates);
      assert |authorized| == 1 ==> authorized == [authorized[0]];
    }
  }

  /** A carried credential is the only candidate among what the vessel carries. */
  lemma CarriedIsOnly(input: Input, alternative: Alternative)
    ensures Carried(input, alternative).Some? ==>
              var name, refs := Carried(input, alternative).value, input.refs[alternative.requester.vessel];
              name in refs && name in alternative.candidates
                  && forall other <- refs | other in alternative.candidates :: other == name
  {
    if alternative.requester.vessel in input.refs {
      AuthorizedSpec(input.refs[alternative.requester.vessel], alternative.candidates);
    }
  }

  predicate Wants(input: Input, table: Table, alternative: Alternative) {
    alternative.candidates != map[]
        && !Bound(table, input.convoy, alternative.requester.role, alternative.requester.access)
  }

  function UnboundAmong(input: Input, table: Table, alternatives: seq<Alternative>): seq<Unbound> {
    if alternatives == [] then []
    else
      var rest := UnboundAmong(input, table, alternatives[1..]);
      if Wants(input, table, alternatives[0])
          then [Unbound(alternatives[0], Carried(input, alternatives[0]))] + rest else rest
  }

  function UnboundOf(input: Input, table: Table): seq<Unbound> {
    if input.terminal || input.alternatives.None? then [] else UnboundAmong(input, table, input.alternatives.value)
  }

  // ---- Opening ----

  type Pending = (string, Binding)

  /** The record opened for a requester: one of its candidates, as the grants stand. */
  predicate Opens(input: Input, unbound: Unbound, pending: Pending) {
    var (name, binding) := pending;
    var alternative := unbound.alternative;
    var requester := alternative.requester;
    && name == BindingName(input.convoy, requester.role, requester.access)
    && Binds(binding, input.convoy, requester.role, requester.access) && binding.item == requester.item
    && binding.credential in alternative.candidates
    && (unbound.carried.Some? ==> binding.credential == unbound.carried.value && binding.selection == Pin(SNAPSHOT_PIN))
    && var candidate := alternative.candidates[binding.credential];
       && binding.account == candidate.account && binding.grants == candidate.grants
       && binding.candidates == alternative.candidates.Keys && binding.exclusions == alternative.exclusions
       && |binding.epochs| == 1 && binding.epochs[0].text == NatText(candidate.epoch)
       && binding.state == Open
  }

  ghost predicate OpensAll(input: Input, unbound: seq<Unbound>, pending: seq<Pending>) {
    |pending| <= |unbound| && forall i | 0 <= i < |pending| :: Opens(input, unbound[i], pending[i])
  }

  /** An open binding under the name is kept; an ended one is written over. */
  function OpenOne(table: Table, pending: Pending): Table {
    if pending.0 in table && table[pending.0].state.Open? then table else table[pending.0 := pending.1]
  }

  function OpenAll(table: Table, pending: seq<Pending>): Table
    decreases |pending|
  {
    if pending == [] then table else OpenOne(OpenAll(table, pending[..|pending| - 1]), pending[|pending| - 1])
  }

  ghost predicate AllOpen(pending: seq<Pending>) {
    forall i | 0 <= i < |pending| :: pending[i].1.state.Open?
  }

  ghost predicate Named(pending: seq<Pending>, name: string) {
    exists i | 0 <= i < |pending| :: pending[i].0 == name
  }

  /** The first pending record of a name is at `i`. */
  ghost predicate FirstNamed(pending: seq<Pending>, name: string, i: nat) {
    i < |pending| && pending[i].0 == name && forall j | 0 <= j < i :: pending[j].0 != name
  }

  lemma {:induction false} HasFirst(pending: seq<Pending>, name: string) returns (i: nat)
    requires Named(pending, name)
    ensures FirstNamed(pending, name, i)
    decreases |pending|
  {
    var init := pending[..|pending| - 1];
    var j :| 0 <= j < |pending| && pending[j].0 == name;
    assert forall k | 0 <= k < |init| :: pending[k] == init[k];
    if Named(init, name) {
      i := HasFirst(init, name);
    } else {
      i := |pending| - 1;
    }
  }

  /** What opening leaves under a name: the record that was there unless it had ended, or else the first pending one. */
  lemma {:induction false} OpenedAt(table: Table, pending: seq<Pending>, name: string)
    requires AllOpen(pending)
    ensures name in OpenAll(table, pending) <==> name in table || Named(pending, name)
    ensures name in table && (table[name].state.Open? || !Named(pending, name)) ==>
              OpenAll(table, pending)[name] == table[name]
    ensures forall i: nat | FirstNamed(pending, name, i) && !(name in table && table[name].state.Open?) ::
              OpenAll(table, pending)[name] == pending[i].1
    decreases |pending|
  {
    if pending != [] {
      var n := |pending| - 1;
      var init := pending[..n];
      OpenedAt(table, init, name);
      assert forall i | 0 <= i < n :: init[i] == pending[i];
      assert Named(pending, name) <==> Named(init, name) || pending[n].0 == name;
      assert forall i: nat | i < n :: FirstNamed(pending, name, i) <==> FirstNamed(init, name, i);
      if Named(init, name) {
        var first := HasFirst(init, name);
        assert FirstNamed(pending, name, first);
      }
    }
  }

  /** Opening disturbs a record exactly when it had ended and a pending one has its name. */
  lemma DisturbsExactly(table: Table, pending: seq<Pending>, name: string)
    requires AllOpen(pending) && name in table
    ensures name in OpenAll(table, pending)
    ensures OpenAll(table, pending)[name] != table[name] <==> !table[name].state.Open? && Named(pending, name)
  {
    OpenedAt(table, pending, name);
    if Named(pending, name) {
      var i := HasFirst(pending, name);
    }
  }

  // ---- A pass and a bind reach a fixpoint ----

  lemma PassedEvolves(input: Input, name: string, binding: Binding)
    ensures Evolves(binding, Passed(input, name, binding))
  {
    hide ParseEpoch, Reconciled, RequesterParts;
    if binding.state.Open? && input.alternatives.Some? {
      ReconciledEvolves(binding, input.alternatives.value, Until(input, name), input.now);
    }
  }

  lemma PassKeepsBound(input: Input, table: Table, convoy: string, role: string, access: string)
    ensures Bound(PassTable(input, table), convoy, role, access) <==> Bound(table, convoy, role, access)
  {
    hide ParseEpoch, Passed, RequesterParts;
    forall name | name in table
      ensures Binds(PassTable(input, table)[name], convoy, role, access) <==> Binds(table[name], convoy, role, access)
    {
      PassedEvolves(input, name, table[name]);
    }
    if name :| name in table && Binds(table[name], convoy, role, access) {
      assert Binds(PassTable(input, table)[name], convoy, role, access);
    }
  }

  /** The pass finds unbound exactly the alternatives that have candidates and no binding, with what they carry. */
  lemma {:induction false} UnboundSpec(input: Input, table: Table, alternatives: seq<Alternative>)
    ensures forall u <- UnboundAmong(input, table, alternatives) ::
              && u.alternative in alternatives && Wants(input, table, u.alternative)
              && u.carried == Carried(input, u.alternative)
    ensures forall a <- alternatives | Wants(input, table, a) ::
              Unbound(a, Carried(input, a)) in UnboundAmong(input, table, alternatives)
    ensures UnboundAmong(input, table, alternatives) == [] <==> forall a <- alternatives :: !Wants(input, table, a)
  {
    hide Wants, Carried;
    if alternatives != [] {
      assert alternatives == [alternatives[0]] + alternatives[1..];
      UnboundSpec(input, table, alternatives[1..]);
    }
  }

  predicate SameRequester(a: Alternative, b: Alternative) {
    a.requester.role == b.requester.role && a.requester.access == b.requester.access
  }

  lemma {:induction false} FirstWanted(
    input: Input, table: Table, alternatives: seq<Alternative>, first: Alternative)
    returns (k: nat)
    requires Find(alternatives, first.requester.role, first.requester.access) == Some(first)
             && Wants(input, table, first)
    ensures var unbound := UnboundAmong(input, table, alternatives);
            k < |unbound| && unbound[k].alternative == first && forall i | 0 <= i < k ::
                !SameRequester(unbound[i].alternative, first)
  {
    hide Wants;
    if SameRequester(alternatives[0], first) {
      k := 0;
    } else {
      k := FirstWanted(input, table, alternatives[1..], first);
      if Wants(input, table, alternatives[0]) {
        k := k + 1;
      }
    }
  }

  lemma {:induction false} FoundMatches(alternatives: seq<Alternative>, alternative: Alternative)
    requires alternative in alternatives
    ensures var found := Find(alternatives, alternative.requester.role, alternative.requester.access);
            found.Some? && SameRequester(found.value, alternative) && found.value in alternatives
  {
    if !SameRequester(alternatives[0], alternative) {
      FoundMatches(alternatives[1..], alternative);
    }
  }

  function NameOf(input: Input, unbound: Unbound): string {
    BindingName(input.convoy, unbound.alternative.requester.role, unbound.alternative.requester.access)
  }

  /** No unbound requester's name is taken, by a record or by another of them. */
  ghost predicate Clear(input: Input, table: Table, unbound: seq<Unbound>) {
    && (forall i | 0 <= i < |unbound| :: NameOf(input, unbound[i]) !in table)
    && forall i, j | 0 <= i < |unbound| && 0 <= j < |unbound|
      && NameOf(input, unbound[i]) == NameOf(input, unbound[j]) ::
         SameRequester(unbound[i].alternative, unbound[j].alternative)
  }

  /** The first alternative listed for each unbound requester is one that has candidates. */
  predicate FirstsAuthorized(alternatives: seq<Alternative>, unbound: seq<Unbound>) {
    forall i | 0 <= i < |unbound| ::
      var requester := unbound[i].alternative.requester;
      var first := Find(alternatives, requester.role, requester.access);
      first.Some? && first.value.candidates != map[]
  }

  ghost predicate Undisturbed(before: Table, after: Table) {
    forall name <- before :: name in after && after[name] == before[name]
  }

  /** Another pass would change nothing and find no one to bind. */
  ghost predicate Settled(input: Input, table: Table) {
    PassTable(input, table) == table && UnboundOf(input, table) == []
  }

  /** A later pass over the same convoy, in the same phase, with the grants unchanged. */
  predicate SameGrants(input: Input, later: Input) {
    later.convoy == input.convoy && later.terminal == input.terminal && later.alternatives == input.alternatives
  }

  /** A requester that was unbound and is served has its binding under its own, new name. */
  lemma ServedByName(input: Input, table: Table, pending: seq<Pending>, i: nat)
    requires var unbound := UnboundOf(input, table);
             OpensAll(input, unbound, pending) && |pending| == |unbound| && i < |pending|
    requires var middle := PassTable(input, table); Undisturbed(middle, OpenAll(middle, pending))
    requires var requester := UnboundOf(input, table)[i].alternative.requester;
             Bound(OpenAll(PassTable(input, table), pending), input.convoy, requester.role, requester.access)
    ensures pending[i].0 == NameOf(input, UnboundOf(input, table)[i])
    ensures var requester := UnboundOf(input, table)[i].alternative.requester;
            && pending[i].0 !in table && pending[i].0 in OpenAll(PassTable(input, table), pending)
            && var binding := OpenAll(PassTable(input, table), pending)[pending[i].0];
               Binds(binding, input.convoy, requester.role, requester.access) && binding.state.Open?
  {
    hide Passed, RequesterParts, BindingName, Carried;
    var unbound, middle := UnboundOf(input, table), PassTable(input, table);
    var after, requester := OpenAll(middle, pending), unbound[i].alternative.requester;
    assert Opens(input, unbound[i], pending[i]);
    UnboundSpec(input, table, input.alternatives.value);
    PassKeepsBound(input, table, input.convoy, requester.role, requester.access);
    assert Wants(input, table, unbound[i].alternative);
    assert forall other | other in middle :: !Binds(middle[other], input.convoy, requester.role, requester.access);
    var name :| name in after && Binds(after[name], input.convoy, requester.role, requester.access);
    OpenedAt(middle, pending, name);
    var j := HasFirst(pending, name);
    assert Opens(input, unbound[j], pending[j]);
  }

  lemma SettledServes(input: Input, later: Input, table: Table, after: Table, i: nat)
    requires SameGrants(input, later) && UnboundOf(later, after) == []
    requires i < |UnboundOf(input, table)|
    ensures var requester := UnboundOf(input, table)[i].alternative.requester;
            Bound(after, input.convoy, requester.role, requester.access)
  {
    hide Bound, Carried;
    UnboundSpec(input, table, input.alternatives.value);
    UnboundSpec(later, after, input.alternatives.value);
    var alternative := UnboundOf(input, table)[i].alternative;
    assert UnboundOf(input, table)[i] in UnboundAmong(input, table, input.alternatives.value);
    assert !Wants(later, after, alternative);
  }

  /** An open binding that a pass leaves alone has an alternative with candidates. */
  lemma StandingIsAuthorized(input: Input, name: string, binding: Binding, role: string, access: string)
    requires !input.terminal && input.alternatives.Some? && binding.state.Open?
             && Binds(binding, input.convoy, role, access)
    requires Passed(input, name, binding) == binding
    ensures var first := Find(input.alternatives.value, role, access); first.Some? && first.value.candidates != map[]
  {
    hide ParseEpoch, Find, RequesterParts;
  }

  lemma SettledIsClear(input: Input, later: Input, table: Table, pending: seq<Pending>)
    requires !input.terminal && input.alternatives.Some? && SameGrants(input, later)
    requires var unbound := UnboundOf(input, table); OpensAll(input, unbound, pending) && |pending| == |unbound|
    requires var middle := PassTable(input, table); var after := OpenAll(middle, pending);
             Undisturbed(middle, after) && Settled(later, after)
    ensures Clear(input, table, UnboundOf(input, table))
            && FirstsAuthorized(input.alternatives.value, UnboundOf(input, table))
  {
    hide BindingName, Carried, OpenAll, UnboundAmong, Find, RequesterParts, Passed, Bound, Opens;
    var unbound := UnboundOf(input, table);
    var after := OpenAll(PassTable(input, table), pending);
    forall i | 0 <= i < |unbound|
      ensures pending[i].0 == NameOf(input, unbound[i]) && pending[i].0 !in table && pending[i].0 in after
      ensures var requester := unbound[i].alternative.requester;
              Binds(after[pending[i].0], input.convoy, requester.role, requester.access)
                  && after[pending[i].0].state.Open?
    {
      SettledServes(input, later, table, after, i);
      ServedByName(input, table, pending, i);
    }
    forall i | 0 <= i < |unbound|
      ensures var requester := unbound[i].alternative.requester;
              var first := Find(input.alternatives.value, requester.role, requester.access);
              first.Some? && first.value.candidates != map[]
    {
      var name, requester := pending[i].0, unbound[i].alternative.requester;
      assert Passed(later, name, after[name]) == PassTable(later, after)[name] == after[name];
      StandingIsAuthorized(later, name, after[name], requester.role, requester.access);
    }
  }

  /** A binding just opened stands under the alternatives it was opened from. */
  lemma JustOpenedStands(input: Input, later: Input, unbound: Unbound, pending: Pending)
    requires !later.terminal && later.alternatives.Some? && later.convoy == input.convoy
             && Opens(input, unbound, pending)
    requires var requester := unbound.alternative.requester;
             Find(later.alternatives.value, requester.role, requester.access) == Some(unbound.alternative)
    ensures Passed(later, pending.0, pending.1) == pending.1
  {
    hide ParseEpoch, RequesterParts, Find, BindingName;
    ParseOfPrintedEpoch(unbound.alternative.candidates[pending.1.credential].epoch);
  }

  lemma PassedSettles(input: Input, later: Input, name: string, binding: Binding)
    requires SameGrants(input, later)
    ensures Passed(later, name, Passed(input, name, binding)) == Passed(input, name, binding)
  {
    hide ParseEpoch, RequesterParts, Reconciled;
    if binding.state.Open? && input.alternatives.Some? {
      ReconciledSettles(binding, input.alternatives.value, Until(input, name), input.now, Until(later, name),
          later.now);
      PassedEvolves(input, name, binding);
    }
  }

  /** The first record of a name among the pending is the one of the first alternative for its requester. */
  lemma FirstPending(input: Input, table: Table, pending: seq<Pending>, j: nat)
    requires !input.terminal && input.alternatives.Some?
    requires var unbound := UnboundOf(input, table);
             OpensAll(input, unbound, pending) && |pending| == |unbound|
             && Clear(input, table, unbound) && FirstsAuthorized(input.alternatives.value, unbound)
    requires j < |pending| && FirstNamed(pending, pending[j].0, j)
    ensures var alternative := UnboundOf(input, table)[j].alternative;
            Find(input.alternatives.value, alternative.requester.role, alternative.requester.access) ==
                Some(alternative)
  {
    hide Bound, BindingName, Carried, Find, RequesterParts;
    var alternatives, unbound := input.alternatives.value, UnboundOf(input, table);
    var alternative := unbound[j].alternative;
    UnboundSpec(input, table, alternatives);
    assert unbound[j] in unbound && Wants(input, table, alternative);
    FoundMatches(alternatives, alternative);
    var first := Find(alternatives, alternative.requester.role, alternative.requester.access).value;
    var k := FirstWanted(input, table, alternatives, first);
    assert Opens(input, unbound[k], pending[k]) && Opens(input, unbound[j], pending[j]);
    assert pending[k].0 == pending[j].0;
    assert !(j < k);
  }

  lemma ClearIsSettled(input: Input, later: Input, table: Table, pending: seq<Pending>)
    requires !input.terminal && input.alternatives.Some? && SameGrants(input, later)
    requires var unbound := UnboundOf(input, table);
             OpensAll(input, unbound, pending) && |pending| == |unbound|
             && Clear(input, table, unbound) && FirstsAuthorized(input.alternatives.value, unbound)
    ensures var middle := PassTable(input, table); var after := OpenAll(middle, pending);
            Undisturbed(middle, after) && Settled(later, after)
  {
    hide ParseEpoch, BindingName, Carried, OpenAll, UnboundAmong, Find, RequesterParts, Passed, FirstsAuthorized;
    var unbound, middle := UnboundOf(input, table), PassTable(input, table);
    var after := OpenAll(middle, pending);
    forall i | 0 <= i < |pending|
      ensures pending[i].0 == NameOf(input, unbound[i]) && pending[i].0 !in middle && pending[i].1.state.Open?
    {
      assert Opens(input, unbound[i], pending[i]);
    }
    forall name | name in after
      ensures Passed(later, name, after[name]) == after[name]
      ensures name in middle ==> after[name] == middle[name]
    {
      OpenedAt(middle, pending, name);
      if name in middle {
        PassedSettles(input, later, name, table[name]);
      } else {
        var j := HasFirst(pending, name);
        FirstPending(input, table, pending, j);
        JustOpenedStands(input, later, unbound[j], pending[j]);
      }
    }
    forall name | name in middle
      ensures name in after
    {
      OpenedAt(middle, pending, name);
    }
    ClearServesAll(input, later, table, pending);
  }

  lemma ClearServesAll(input: Input, later: Input, table: Table, pending: seq<Pending>)
    requires !input.terminal && input.alternatives.Some? && SameGrants(input, later)
    requires var unbound := UnboundOf(input, table);
             OpensAll(input, unbound, pending) && |pending| == |unbound| && Clear(input, table, unbound)
    ensures UnboundOf(later, OpenAll(PassTable(input, table), pending)) == []
  {
    hide BindingName, Carried, RequesterParts, Passed;
    var alternatives, unbound, middle := input.alternatives.value, UnboundOf(input, table), PassTable(input, table);
    var after := OpenAll(middle, pending);
    UnboundSpec(later, after, alternatives);
    forall i | 0 <= i < |pending|
      ensures pending[i].1.state.Open? && pending[i].0 !in table
    {
      assert Opens(input, unbound[i], pending[i]) && NameOf(input, unbound[i]) !in table;
    }
    forall a | a in alternatives && a.candidates != map[]
      ensures Bound(after, input.convoy, a.requester.role, a.requester.access)
    {
      if Bound(table, input.convoy, a.requester.role, a.requester.access) {
        PassKeepsBound(input, table, input.convoy, a.requester.role, a.requester.access);
        var name :| name in middle && Binds(middle[name], input.convoy, a.requester.role, a.requester.access);
        OpenedAt(middle, pending, name);
        assert !Named(pending, name);
        assert Binds(after[name], input.convoy, a.requester.role, a.requester.access);
      } else {
        WantedServed(input, table, pending, a);
      }
    }
  }

  lemma WantedServed(input: Input, table: Table, pending: seq<Pending>, a: Alternative)
    requires !input.terminal && input.alternatives.Some? && a in input.alternatives.value && Wants(input, table, a)
    requires var unbound := UnboundOf(input, table);
             OpensAll(input, unbound, pending) && |pending| == |unbound| && Clear(input, table, unbound)
    ensures Bound(OpenAll(PassTable(input, table), pending), input.convoy, a.requester.role, a.requester.access)
  {
    hide BindingName, Carried, RequesterParts, Passed, Wants;
    var unbound, middle := UnboundOf(input, table), PassTable(input, table);
    var after := OpenAll(middle, pending);
    var i := WantedIndex(input, table, input.alternatives.value, a);
    forall k | 0 <= k < |pending|
      ensures pending[k].1.state.Open? && pending[k].0 == NameOf(input, unbound[k])
    {
      assert Opens(input, unbound[k], pending[k]);
    }
    var name := pending[i].0;
    var j := HasFirst(pending, name);
    OpenedAt(middle, pending, name);
    assert Opens(input, unbound[j], pending[j]) && SameRequester(unbound[j].alternative, a);
    assert Binds(after[name], input.convoy, a.requester.role, a.requester.access);
  }

  lemma {:induction false} WantedIndex(
    input: Input, table: Table, alternatives: seq<Alternative>, a: Alternative)
    returns (i: nat)
    requires a in alternatives && Wants(input, table, a)
    ensures i < |UnboundAmong(input, table, alternatives)|
            && UnboundAmong(input, table, alternatives)[i].alternative == a
  {
    hide Wants;
    if alternatives[0] == a {
      i := 0;
    } else {
      i := WantedIndex(input, table, alternatives[1..], a);
      if Wants(input, table, alternatives[0]) {
        i := i + 1;
      }
    }
  }

  /**
   With grants unchanged, a pass and its bind disturb nothing and leave nothing for the next pass to do,
   exactly when no unbound requester's name is taken and the first alternative for each has candidates.
   */
  lemma SettlesExactly(input: Input, later: Input, table: Table, pending: seq<Pending>)
    requires !input.terminal && input.alternatives.Some? && SameGrants(input, later)
    requires var unbound := UnboundOf(input, table); OpensAll(input, unbound, pending) && |pending| == |unbound|
    ensures var middle := PassTable(input, table);
            var after := OpenAll(middle, pending);
            Undisturbed(middle, after) && Settled(later, after) <==>
            Clear(input, table, UnboundOf(input, table))
                && FirstsAuthorized(input.alternatives.value, UnboundOf(input, table))
  {
    hide *;
    var middle := PassTable(input, table);
    var after := OpenAll(middle, pending);
    if Undisturbed(middle, after) && Settled(later, after) {
      SettledIsClear(input, later, table, pending);
    }
    if Clear(input, table, UnboundOf(input, table))
        && FirstsAuthorized(input.alternatives.value, UnboundOf(input, table)) {
      ClearIsSettled(input, later, table, pending);
    }
  }

  /** A teardown, or a convoy whose workflow is not there, settles at once. */
  lemma QuietSettles(input: Input, later: Input, table: Table)
    requires (input.terminal || input.alternatives.None?) && SameGrants(input, later)
    ensures UnboundOf(input, table) == [] && Settled(later, PassTable(input, table))
  {
    hide Passed;
    forall name | name in table
      ensures Passed(later, name, Passed(input, name, table[name])) == Passed(input, name, table[name])
    {
      PassedSettles(input, later, name, table[name]);
    }
  }
}
