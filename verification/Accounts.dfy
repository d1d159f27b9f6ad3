/**
 Account access at admission (crates/flotilla-admission/src/account_access.rs): a requester's authorized
 alternatives, the check against a placement, and the selection of one credential.
 */
module Accounts {
  import opened Outcomes
  import opened Text
  import opened Kinds
  import opened Addresses
  import opened Order

  const U32_LIMIT: nat := 0x1_0000_0000

  type U32 = n: nat | n < U32_LIMIT

  /** A credential a grant authorizes, with every grant that does and its current epoch. */
  datatype Candidate = Candidate(account: Option<string>, grants: map<string, string>, epoch: U32)

  datatype Requester = Requester(vessel: string, role: string, item: string, access: string)

  datatype Alternative = Alternative(
    requester: Requester, candidates: map<string, Candidate>, exclusions: map<string, string>)

  datatype Selection = Pin(pinnedBy: string) | Draw(index: U32)

  datatype Selected = Selected(credential: string, selection: Selection)

  datatype Refusal =
    | Unauthorized | Excluded | NoneUsable | TooMany | NoPlan | BadRequester | LineageFull | Conflict | Unavailable
    | Gone

  // ---- Requesters ----

  /** The requester's role address, under its project when it has one. */
  function RequesterAddress(
    lower: string -> string, project: Option<string>, convoy: string, role: string): Result<Address, Errors.Error>
  {
    var convoyAddress :-
      match project {
        case Some(name) => (var address :- Root(lower, Project, name); Child(lower, address, Convoy, convoy))
        case None => Root(lower, Convoy, convoy)
      };
    Child(lower, convoyAddress, Role, role)
  }

  /** The last value of a kind among the segments, as the loop over them leaves it. */
  function LastOf(segments: seq<Segment>, kind: Kind): Option<string> {
    if segments == [] then None
    else if segments[|segments| - 1].kind == kind then Some(segments[|segments| - 1].value)
    else LastOf(segments[..|segments| - 1], kind)
  }

  /** The convoy and role a requester address names. */
  function RequesterParts(requester: Address): Option<(string, string)> {
    match (LastOf(requester.segments, Convoy), LastOf(requester.segments, Role))
    case (Some(convoy), Some(role)) => Some((convoy, role))
    case _ => None
  }

  method RequesterPartsLoop(requester: Address) returns (r: Option<(string, string)>)
    ensures r == RequesterParts(requester)
  {
    var convoy: Option<string>, role: Option<string> := None, None;
    for i := 0 to |requester.segments|
      invariant convoy == LastOf(requester.segments[..i], Convoy) && role == LastOf(requester.segments[..i], Role)
    {
      assert requester.segments[..i + 1][..i] == requester.segments[..i];
      match requester.segments[i].kind
      case Convoy => convoy := Some(requester.segments[i].value);
      case Role => role := Some(requester.segments[i].value);
      case _ =>
    }
    assert requester.segments[..|requester.segments|] == requester.segments;
    r := match (convoy, role) case (Some(c), Some(o)) => Some((c, o)) case _ => None;
  }

  /**
   A child of one of the kinds a requester's address is made of is refused exactly for its place or an
   empty value.
   */
  lemma ChildIs(lower: string -> string, before: seq<Segment>, kind: Kind, value: string)
    requires kind in {Project, Convoy, Role}
    ensures Child(lower, Plain(before), kind, value).Ok? <==> MayFollow(kind, LastKind(before)) && value != ""
    ensures Child(lower, Plain(before), kind, value).Ok? ==>
              Child(lower, Plain(before), kind, value) == Ok(Plain(before + [Segment(kind, value)]))
  {
    hide Child, Plain, MayFollow;
    ChildOf(lower, before, kind, value);
  }

  lemma RequesterNamed(project: Option<string>, convoy: string, role: string)
    ensures var segments := (if project.Some? then [Segment(Project, project.value)] else []) +
                            [Segment(Convoy, convoy), Segment(Role, role)];
            RequesterParts(Plain(segments)) == Some((convoy, role))
  {
    hide Render;
    var before := (if project.Some? then [Segment(Project, project.value)] else []) + [Segment(Convoy, convoy)];
    var segments := (if project.Some? then [Segment(Project, project.value)] else []) +
                    [Segment(Convoy, convoy), Segment(Role, role)];
    assert segments[..|segments| - 1] == before;
    assert LastOf(before, Convoy) == Some(convoy);
  }

  /** A requester has an address exactly when its names are not empty; the address is those names and reads back. */
  lemma RequesterRoundTrip(lower: string -> string, project: Option<string>, convoy: string, role: string)
    ensures RequesterAddress(lower, project, convoy, role).Ok? <==> project != Some("") && convoy != "" && role != ""
    ensures RequesterAddress(lower, project, convoy, role).Ok? ==>
              var address := RequesterAddress(lower, project, convoy, role).value;
              && RequesterParts(address) == Some((convoy, role))
              && address == Plain((if project.Some? then [Segment(Project, project.value)] else []) +
                                  [Segment(Convoy, convoy), Segment(Role, role)])
  {
    hide Child, Plain, RequesterParts;
    var named := if project.Some? then [Segment(Project, project.value)] else [];
    PlainSegments([]);
    if project.Some? {
      ChildIs(lower, [], Project, project.value);
      assert [] + named == named;
    }
    ChildIs(lower, named, Convoy, convoy);
    ChildIs(lower, named + [Segment(Convoy, convoy)], Role, role);
    assert named + [Segment(Convoy, convoy)] + [Segment(Role, role)] ==
           named + [Segment(Convoy, convoy), Segment(Role, role)];
    RequesterNamed(project, convoy, role);
  }

  // ---- Authorization ----

  const ACCOUNT_SCOPE := "account"

  datatype Grant = Grant(name: string, credentials: seq<string>)

  datatype Declaration = Declaration(consumer: string, epoch: U32)

  /**
   What authorization depends on: the grants with those that apply to the requester, the declared
   credentials, and the account a credential's consumer supplies for the access, if it supplies it.
   */
  datatype Grants = Grants(
    grants: seq<Grant>, applies: Grant -> bool, declared: map<string, Declaration>,
        supplies: string -> Option<Option<string>>)
  {
    predicate Supplied(name: string) {
      name in declared && supplies(declared[name].consumer).Some?
    }

    predicate Offers(i: nat, name: string)
      requires i < |grants|
    {
      applies(grants[i]) && name in grants[i].credentials && Supplied(name)
    }

    /** The candidate a credential is before any grant is recorded. */
    function Fresh(name: string): Candidate
      requires Supplied(name)
    {
      Candidate(supplies(declared[name].consumer).value, map[], declared[name].epoch)
    }
  }

  ghost predicate Offered(source: Grants, n: nat, name: string)
    requires n <= |source.grants|
  {
    exists i | 0 <= i < n :: source.Offers(i, name)
  }

  /** The names of the first `n` grants that offer a credential. */
  ghost function Offering(source: Grants, n: nat, name: string): set<string>
    requires n <= |source.grants|
  {
    set i | 0 <= i < n && source.Offers(i, name) :: source.grants[i].name
  }

  ghost predicate AuthorizedAt(source: Grants, n: nat, candidates: map<string, Candidate>, name: string)
    requires n <= |source.grants|
  {
    if Offered(source, n, name) && source.Supplied(name) then
      && name in candidates
      && candidates[name] ==
        source.Fresh(name).(grants := map grant | grant in Offering(source, n, name) :: "account")
    else name !in candidates
  }

  /** The candidates are what the first `n` grants offer, each with exactly the grants that offer it. */
  ghost predicate Authorizes(source: Grants, n: nat, candidates: map<string, Candidate>)
    requires n <= |source.grants|
  {
    forall name :: AuthorizedAt(source, n, candidates, name)
  }

  /** A credential no applicable grant lists is never a candidate; one that several list keeps each of them. */
  method Authorize(requester: Requester, source: Grants) returns (alternative: Alternative)
    ensures alternative.requester == requester && alternative.exclusions == map[]
    ensures Authorizes(source, |source.grants|, alternative.candidates)
  {
    hide Authorizes;
    var candidates: map<string, Candidate> := map[];
    NothingAuthorized(source);
    for i := 0 to |source.grants|
      invariant Authorizes(source, i, candidates)
    {
      ghost var before := candidates;
      if source.applies(source.grants[i]) {
        candidates := AddGrant(source, source.grants[i], candidates);
      }
      GrantAdded(source, i, before, candidates);
    }
    return Alternative(requester, candidates, map[]);
  }

  lemma NothingAuthorized(source: Grants)
    ensures Authorizes(source, 0, map[])
  {
  }

  /** One more grant recorded on a candidate, which it makes if it is the first. */
  function WithGrant(source: Grants, grant: Grant, candidates: map<string, Candidate>, name: string): Candidate
    requires source.Supplied(name)
  {
    var candidate := if name in candidates then candidates[name] else source.Fresh(name);
    candidate.(grants := candidate.grants[grant.name := ACCOUNT_SCOPE])
  }

  ghost predicate GrantTaken(
    source: Grants, grant: Grant, names: seq<string>, before: map<string, Candidate>, after: map<string, Candidate>)
  {
    && (forall name :: name in after <==> name in before || (name in names && source.Supplied(name)))
    && forall name <- after ::
         if name in names && source.Supplied(name) then after[name] == WithGrant(source, grant, before, name)
         else name in before && after[name] == before[name]
  }

  method AddGrant(source: Grants, grant: Grant, before: map<string, Candidate>) returns (after: map<string, Candidate>)
    ensures GrantTaken(source, grant, grant.credentials, before, after)
  {
    hide GrantTaken, WithGrant, Grants.Supplied;
    after := before;
    NothingTaken(source, grant, before);
    for j := 0 to |grant.credentials|
      invariant GrantTaken(source, grant, grant.credentials[..j], before, after)
    {
      var name := grant.credentials[j];
      GrantTakenSnoc(source, grant, grant.credentials[..j], before, after, name);
      assert grant.credentials[..j + 1] == grant.credentials[..j] + [name];
      if source.Supplied(name) {
        after := after[name := WithGrant(source, grant, after, name)];
      }
    }
    assert grant.credentials[..|grant.credentials|] == grant.credentials;
  }

  lemma NothingTaken(source: Grants, grant: Grant, candidates: map<string, Candidate>)
    ensures GrantTaken(source, grant, [], candidates, candidates)
  {
  }

  lemma GrantTakenSnoc(
    source: Grants, grant: Grant, names: seq<string>, before: map<string, Candidate>, after: map<string, Candidate>,
        name: string)
    requires GrantTaken(source, grant, names, before, after)
    ensures GrantTaken(source, grant, names + [name], before,
                       if source.Supplied(name) then after[name := WithGrant(source, grant, after, name)] else after)
  {
    hide Grants.Supplied, Grants.Fresh;
    if source.Supplied(name) && name in names {
      assert WithGrant(source, grant, after, name) == after[name];
    }
  }

  lemma OfferedSnoc(source: Grants, n: nat, name: string)
    requires n < |source.grants|
    ensures Offered(source, n + 1, name) <==> Offered(source, n, name) || source.Offers(n, name)
    ensures Offering(source, n + 1, name) ==
            Offering(source, n, name) + if source.Offers(n, name) then {source.grants[n].name} else {}
  {
    hide Grants.Offers;
  }

  lemma GrantAdded(source: Grants, i: nat, before: map<string, Candidate>, after: map<string, Candidate>)
    requires i < |source.grants| && Authorizes(source, i, before)
    requires if source.applies(source.grants[i])
             then GrantTaken(source, source.grants[i], source.grants[i].credentials, before, after)
             else after == before
    ensures Authorizes(source, i + 1, after)
  {
    hide AuthorizedAt, GrantTaken;
    var n := i + 1;
    forall name
      ensures AuthorizedAt(source, n, after, name)
    {
      GrantAddedAt(source, i, before, after, name);
    }
  }

  lemma GrantAddedAt(
    source: Grants, i: nat, before: map<string, Candidate>, after: map<string, Candidate>, name: string)
    requires i < |source.grants| && AuthorizedAt(source, i, before, name)
    requires if source.applies(source.grants[i])
             then GrantTaken(source, source.grants[i], source.grants[i].credentials, before, after)
             else after == before
    ensures AuthorizedAt(source, i + 1, after, name)
  {
    hide Offered, Offering, Grants.Supplied;
    OfferedSnoc(source, i, name);
    if !Offered(source, i, name) {
      NoneOffering(source, i, name);
    }
    if source.Offers(i, name) {
      var grants := map grant | grant in Offering(source, i, name) :: ACCOUNT_SCOPE;
      var names := Offering(source, i + 1, name);
      assert grants[source.grants[i].name := ACCOUNT_SCOPE] == map grant | grant in names :: ACCOUNT_SCOPE;
    }
  }

  lemma NoneOffering(source: Grants, n: nat, name: string)
    requires n <= |source.grants| && !Offered(source, n, name)
    ensures Offering(source, n, name) == {}
  {
  }

  // ---- Placement ----

  function UsableNames(alternative: Alternative): set<string> {
    alternative.candidates.Keys - alternative.exclusions.Keys
  }

  /** The alternative with every candidate the host does not hold excluded. */
  function Narrowed(alternative: Alternative, held: Option<set<string>>, reason: string): Alternative {
    if held.None? then alternative
    else alternative.(exclusions :=
        alternative.exclusions + map name | name in alternative.candidates.Keys - held.value :: reason)
  }

  /**
   Checks every alternative against a placement, excluding in place what its host does not hold, up to
   the first that has no plan or nothing usable; `planned` says which accesses have a plan there.
   */
  method CheckPlacement(
    alternatives: array<Alternative>, planned: string -> bool, held: Option<set<string>>, reason: string)
    returns (r: Result<(), Refusal>)
    modifies alternatives
    ensures r.Ok? <==> forall i | 0 <= i < alternatives.Length ::
              planned(old(alternatives[i]).requester.access)
                  && UsableNames(Narrowed(old(alternatives[i]), held, reason)) != {}
    ensures r.Ok? ==>
              forall i | 0 <= i < alternatives.Length :: alternatives[i] == Narrowed(old(alternatives[i]), held, reason)
    ensures forall i | 0 <= i < alternatives.Length ::
              alternatives[i] == old(alternatives[i]) || alternatives[i] == Narrowed(old(alternatives[i]), held, reason)
  {
    hide Narrowed, UsableNames;
    for i := 0 to alternatives.Length
      invariant forall j | 0 <= j < i :: alternatives[j] == Narrowed(old(alternatives[j]), held, reason)
      invariant forall j | i <= j < alternatives.Length :: alternatives[j] == old(alternatives[j])
      invariant forall j | 0 <= j < i :: planned(old(alternatives[j]).requester.access)
      invariant forall j | 0 <= j < i :: UsableNames(Narrowed(old(alternatives[j]), held, reason)) != {}
    {
      if !planned(alternatives[i].requester.access) {
        return Err(NoPlan);
      }
      var narrowed := ExcludeUnheld(alternatives[i], held, reason);
      alternatives[i] := narrowed;
      if UsableNames(alternatives[i]) == {} {
        return Err(NoneUsable);
      }
    }
    return Ok(());
  }

  method ExcludeUnheld(alternative: Alternative, held: Option<set<string>>, reason: string) returns (r: Alternative)
    ensures r == Narrowed(alternative, held, reason)
  {
    if held.None? {
      return alternative;
    }
    var exclusions := alternative.exclusions;
    var pending := alternative.candidates.Keys;
    while pending != {}
      invariant pending <= alternative.candidates.Keys
      invariant exclusions.Keys == alternative.exclusions.Keys + (alternative.candidates.Keys - pending - held.value)
      invariant forall name <- exclusions ::
                  exclusions[name] == if name in alternative.candidates.Keys - pending - held.value then reason
                      else alternative.exclusions[name]
    {
      var name :| name in pending;
      pending := pending - {name};
      if name !in held.value {
        exclusions := exclusions[name := reason];
      }
    }
    assert exclusions == Narrowed(alternative, held, reason).exclusions;
    return alternative.(exclusions := exclusions);
  }

  /** What is usable after the check was usable before it and is held. */
  lemma NarrowedUsable(alternative: Alternative, held: Option<set<string>>, reason: string, name: string)
    ensures name in UsableNames(Narrowed(alternative, held, reason)) <==>
            name in UsableNames(alternative) && (held.Some? ==> name in held.value)
  {
  }

  // ---- Selection ----

  /** How many of the names come before this one. */
  function Rank(names: set<string>, name: string): nat {
    |Earlier(names, name)|
  }

  function Earlier(names: set<string>, name: string): set<string> {
    set other | other in names && Before(other, name)
  }

  predicate Selectable(alternative: Alternative, pin: Option<(string, string)>) {
    match pin
    case Some((name, _)) => name in UsableNames(alternative)
    case None => 0 < |UsableNames(alternative)| < U32_LIMIT
  }

  /** The pin, or the usable name at the drawn place in their order. */
  predicate IsSelected(alternative: Alternative, pin: Option<(string, string)>, below: nat -> nat, selected: Selected) {
    && selected.credential in UsableNames(alternative)
    && match pin
       case Some((name, pinnedBy)) => selected == Selected(name, Pin(pinnedBy))
       case None =>
         && selected.selection.Draw?
         && selected.selection.index == below(|UsableNames(alternative)|) ==
           Rank(UsableNames(alternative), selected.credential)
  }

  method SortedNames(names: set<string>) returns (sorted: seq<string>)
    ensures Ordered(sorted, ASCENDING) && |sorted| == |names| && forall name :: name in sorted <==> name in names
  {
    sorted := [];
    var pending := names;
    while pending != {}
      invariant pending <= names && Ordered(sorted, ASCENDING)
      invariant forall name :: name in sorted <==> name in names - pending
    {
      var name :| name in pending;
      pending := pending - {name};
      TextOrders();
      InsertOrdered(sorted, name, ASCENDING);
      InsertElements(sorted, name, ASCENDING);
      sorted := Insert(sorted, name, ASCENDING);
    }
    assert names - pending == names;
    SameSize(sorted, names);
  }

  lemma SameSize(sorted: seq<string>, names: set<string>)
    requires Ordered(sorted, ASCENDING) && forall name :: name in sorted <==> name in names
    ensures |sorted| == |names|
  {
    hide Before;
    TextOrders();
    OrderedDistinct(sorted, ASCENDING);
    DistinctSize(sorted, |sorted|);
    var elements := set i | 0 <= i < |sorted| :: sorted[i];
    forall name
      ensures name in elements <==> name in sorted
    {
    }
    assert elements == names;
  }

  /** A usable pin wins and any other is refused; without one, the draw over the usable candidates. */
  method Select(
    alternative: Alternative, pin: Option<(string, string)>, below: nat -> nat)
    returns (r: Result<Selected, Refusal>)
    requires forall bound | bound > 0 :: below(bound) < bound
    ensures r.Ok? <==> Selectable(alternative, pin)
    ensures r.Ok? ==> IsSelected(alternative, pin, below, r.value)
    ensures pin.Some? && pin.value.0 !in alternative.candidates ==> r == Err(Unauthorized)
    ensures r.Err? ==> r.error != Conflict
  {
    match pin
    case Some((name, pinnedBy)) =>
      if name !in alternative.candidates {
        return Err(Unauthorized);
      }
      if name in alternative.exclusions {
        return Err(Excluded);
      }
      return Ok(Selected(name, Pin(pinnedBy)));
    case None =>
      var usable := SortedNames(UsableNames(alternative));
      if usable == [] {
        return Err(NoneUsable);
      }
      if |usable| >= U32_LIMIT {
        return Err(TooMany);
      }
      var index := below(|usable|);
      TextOrders();
      RankAt(usable, ASCENDING, Earlier(UsableNames(alternative), usable[index]), index);
      return Ok(Selected(usable[index], Draw(index)));
  }

  /** The draw is fair to every candidate: each place draws a different one, and each one has a place. */
  lemma DrawIsOneToOne(names: set<string>, a: string, b: string)
    requires a in names && b in names
    ensures Rank(names, a) < |names|
    ensures Rank(names, a) == Rank(names, b) ==> a == b
  {
    TextOrders();
    RankBelow(names, a);
    if a != b {
      var first, second := if Before(a, b) then a else b, if Before(a, b) then b else a;
      var early, late := Earlier(names, first), Earlier(names, second);
      assert ASCENDING(first, second);
      assert forall x | Before(x, first) :: ASCENDING(x, first) && ASCENDING(x, second);
      assert early + {first} <= late && first !in early by {
        assert !ASCENDING(first, first);
      }
      SubsetSize(early + {first}, late);
    }
  }

  lemma RankBelow(names: set<string>, a: string)
    requires a in names
    ensures Rank(names, a) < |names|
  {
    BeforeIrreflexive(a);
    SubsetSize(Earlier(names, a) + {a}, names);
  }

  lemma {:induction false} SubsetSize<T>(a: set<T>, b: set<T>)
    requires a <= b
    ensures |a| <= |b|
    decreases a
  {
    if a != {} {
      var x :| x in a;
      SubsetSize(a - {x}, b - {x});
    }
  }
}
