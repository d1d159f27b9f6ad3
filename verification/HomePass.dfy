/**
 The home pass as it runs (crates/flotilla-admission/src/account_access.rs, `reconcile_convoy_bindings`
 and `bind_unbound`; crates/flotilla-admission/src/convoy_admission.rs, `reconcile_convoy_accounts`): its
 writes through versioned records, any of which may fail, and what every sequence of passes keeps.
 */
module HomePass {
  import opened Outcomes
  import opened Text
  import Kinds
  import opened Addresses
  import opened Accounts
  import opened Bindings

  // ---- Runs ----

  ghost predicate Evolution(before: Table, after: Table) {
    after.Keys == before.Keys && forall name <- before :: Evolves(before[name], after[name])
  }

  /** One pass, completed or cut short by a failing write, and the records its bind opened. */
  datatype Turn = Turn(input: Input, middle: Table, pending: seq<Pending>)

  ghost predicate IsTurn(turn: Turn, before: Table, after: Table) {
    && Evolution(before, turn.middle)
    && OpensAll(turn.input, UnboundOf(turn.input, before), turn.pending)
    && after == OpenAll(turn.middle, turn.pending)
  }

  ghost predicate ClearTurn(turn: Turn, before: Table) {
    Clear(turn.input, before, UnboundOf(turn.input, before))
  }

  /** A sequence of passes over any convoys, with any alternatives each time. */
  ghost predicate IsRun(turns: seq<Turn>, tables: seq<Table>) {
    |tables| == |turns| + 1 && forall i | 0 <= i < |turns| :: IsTurn(turns[i], tables[i], tables[i + 1])
  }

  ghost predicate ClearRun(turns: seq<Turn>, tables: seq<Table>)
    requires |tables| == |turns| + 1
  {
    forall i | 0 <= i < |turns| :: ClearTurn(turns[i], tables[i])
  }

  lemma PendingOpen(input: Input, unbound: seq<Unbound>, pending: seq<Pending>)
    requires OpensAll(input, unbound, pending)
    ensures AllOpen(pending)
  {
    hide OpensAll, NameOf, RequesterParts;
    forall i | 0 <= i < |pending|
      ensures pending[i].1.state.Open?
    {
      PendingFacts(input, unbound, pending, i);
    }
  }

  lemma PendingFacts(input: Input, unbound: seq<Unbound>, pending: seq<Pending>, i: nat)
    requires OpensAll(input, unbound, pending) && i < |pending|
    ensures |pending| <= |unbound|
    ensures var (name, binding) := pending[i]; var requester := unbound[i].alternative.requester;
            && name == NameOf(input, unbound[i]) && binding.state.Open? && Lineage(binding)
            && Binds(binding, input.convoy, requester.role, requester.access)
  {
    hide RequesterParts, BindingName;
    assert Opens(input, unbound[i], pending[i]);
  }

  /** An unbound requester has no binding in the table. */
  lemma UnboundHasNone(input: Input, table: Table, i: nat)
    requires i < |UnboundOf(input, table)|
    ensures var requester := UnboundOf(input, table)[i].alternative.requester;
            !Bound(table, input.convoy, requester.role, requester.access)
  {
    hide Bound, Carried;
    UnboundSpec(input, table, input.alternatives.value);
    assert UnboundOf(input, table)[i] in UnboundOf(input, table);
    assert Wants(input, table, UnboundOf(input, table)[i].alternative);
  }

  /**
   A turn keeps a binding's history exactly unless it had ended, by this very pass or before, and a pending
   record takes its name.
   */
  lemma KeepsExactly(turn: Turn, before: Table, after: Table, name: string)
    requires IsTurn(turn, before, after) && name in before
    ensures name in after
    ensures Evolves(before[name], after[name]) <==> turn.middle[name].state.Open? || !Named(turn.pending, name)
  {
    hide RequesterParts, UnboundOf, BindingName, OpenAll, OpensAll, NameOf, ParseEpoch;
    PendingOpen(turn.input, UnboundOf(turn.input, before), turn.pending);
    OpenedAt(turn.middle, turn.pending, name);
    if Named(turn.pending, name) && !turn.middle[name].state.Open? {
      var i := HasFirst(turn.pending, name);
      PendingFacts(turn.input, UnboundOf(turn.input, before), turn.pending, i);
      UnboundHasNone(turn.input, before, i);
      var requester := UnboundOf(turn.input, before)[i].alternative.requester;
      assert !Binds(before[name], turn.input.convoy, requester.role, requester.access);
    }
  }

  /** For a pass and bind that complete, the same in terms of what is there before them. */
  lemma CompletedKeepsExactly(turn: Turn, before: Table, after: Table, name: string)
    requires IsTurn(turn, before, after) && name in before
    requires turn.middle == PassTable(turn.input, before) && |turn.pending| == |UnboundOf(turn.input, before)|
    ensures name in after
    ensures Evolves(before[name], after[name]) <==>
            || Passed(turn.input, name, before[name]).state.Open?
            || forall unbound <- UnboundOf(turn.input, before) :: NameOf(turn.input, unbound) != name
  {
    hide Evolves, Passed, OpenAll, UnboundOf, RequesterParts, NameOf;
    var unbound := UnboundOf(turn.input, before);
    KeepsExactly(turn, before, after, name);
    forall i | 0 <= i < |unbound|
      ensures turn.pending[i].0 == NameOf(turn.input, unbound[i])
    {
      PendingFacts(turn.input, unbound, turn.pending, i);
    }
  }

  lemma ClearNames(turn: Turn, before: Table, after: Table, name: string)
    requires IsTurn(turn, before, after) && ClearTurn(turn, before) && name in before
    ensures !Named(turn.pending, name)
  {
    hide RequesterParts, UnboundOf, BindingName, OpenAll, NameOf, Opens;
    forall i | 0 <= i < |turn.pending|
      ensures turn.pending[i].0 != name
    {
      PendingFacts(turn.input, UnboundOf(turn.input, before), turn.pending, i);
    }
  }

  /** Where a record that a turn added comes from: an unbound requester, under its own name. */
  lemma AddedIsUnbound(turn: Turn, before: Table, after: Table, name: string) returns (i: nat)
    requires IsTurn(turn, before, after) && name in after && name !in before
    ensures i < |turn.pending| && i < |UnboundOf(turn.input, before)|
    ensures var requester := UnboundOf(turn.input, before)[i].alternative.requester;
            && Binds(after[name], turn.input.convoy, requester.role, requester.access) && Lineage(after[name])
            && name == BindingName(turn.input.convoy, requester.role, requester.access)
            && !Bound(before, turn.input.convoy, requester.role, requester.access)
  {
    hide RequesterParts, UnboundOf, BindingName, OpenAll, OpensAll, Lineage, Evolves;
    PendingOpen(turn.input, UnboundOf(turn.input, before), turn.pending);
    OpenedAt(turn.middle, turn.pending, name);
    i := HasFirst(turn.pending, name);
    PendingFacts(turn.input, UnboundOf(turn.input, before), turn.pending, i);
    UnboundHasNone(turn.input, before, i);
  }

  lemma {:induction false} ClearRunKeeps(turns: seq<Turn>, tables: seq<Table>, name: string, n: nat)
    requires IsRun(turns, tables) && ClearRun(turns, tables) && n < |tables| && name in tables[0]
    ensures name in tables[n] && Evolves(tables[0][name], tables[n][name])
  {
    hide IsTurn, ClearTurn, Evolves;
    if n == 0 {
      EvolvesItself(tables[0][name]);
    } else {
      ClearRunKeeps(turns, tables, name, n - 1);
      assert IsTurn(turns[n - 1], tables[n - 1], tables[n - 1 + 1]) && ClearTurn(turns[n - 1], tables[n - 1]);
      ClearNames(turns[n - 1], tables[n - 1], tables[n], name);
      KeepsExactly(turns[n - 1], tables[n - 1], tables[n], name);
      EvolvesTransitive(tables[0][name], tables[n - 1][name], tables[n][name]);
    }
  }

  lemma EvolvesItself(binding: Binding)
    ensures Evolves(binding, binding)
  {
    hide ParseEpoch;
    assert binding == binding.(grants := binding.grants);
  }

  lemma {:induction false} ClearRunNoSecond(turns: seq<Turn>, tables: seq<Table>, n: nat, key: Key, name: string)
    requires IsRun(turns, tables) && ClearRun(turns, tables) && n < |tables|
    requires Bound(tables[0], key.convoy, key.role, key.access) && name in tables[n] && BindsKey(tables[n][name], key)
    ensures name in tables[0] && BindsKey(tables[0][name], key)
  {
    hide IsTurn, ClearTurn, RequesterParts, UnboundOf, BindingName, ParseEpoch;
    if n > 0 {
      var before, turn := tables[n - 1], turns[n - 1];
      assert IsTurn(turn, tables[n - 1], tables[n - 1 + 1]) && ClearTurn(turn, tables[n - 1]);
      var first :| first in tables[0] && Binds(tables[0][first], key.convoy, key.role, key.access);
      ClearRunKeeps(turns, tables, first, n - 1);
      assert BindsKey(before[first], key);
      if name !in before {
        var i := AddedIsUnbound(turn, before, tables[n], name);
        assert false;
      }
      ClearNames(turn, before, tables[n], name);
      KeepsExactly(turn, before, tables[n], name);
      ClearRunNoSecond(turns, tables, n - 1, key, name);
    }
  }

  // ---- Names apart keep every run clear ----

  predicate BindsKey(binding: Binding, key: Key) {
    Binds(binding, key.convoy, key.role, key.access)
  }

  /** The binding under a name is that of a key with the name. */
  ghost predicate Owned(keys: iset<Key>, name: string, binding: Binding) {
    exists key | key in keys :: KeyName(key) == name && BindsKey(binding, key)
  }

  /** A record under a key's name is for a key with that name; other names, as retired ones have, are free. */
  ghost predicate Homed(keys: iset<Key>, table: Table) {
    forall key | key in keys && KeyName(key) in table :: Owned(keys, KeyName(key), table[KeyName(key)])
  }

  /** Every requester the pass resolves alternatives for is one of these. */
  ghost predicate Asks(keys: iset<Key>, input: Input) {
    input.alternatives.Some? ==>
      forall a <- input.alternatives.value :: Key(input.convoy, a.requester.role, a.requester.access) in keys
  }

  /** The run starts from records at home and only ever asks for these keys. */
  ghost predicate InPlay(keys: iset<Key>, turns: seq<Turn>, first: Table) {
    Homed(keys, first) && forall i | 0 <= i < |turns| :: Asks(keys, turns[i].input)
  }

  function UnboundKey(input: Input, unbound: Unbound): Key {
    Key(input.convoy, unbound.alternative.requester.role, unbound.alternative.requester.access)
  }

  lemma UnboundAsked(keys: iset<Key>, input: Input, table: Table, i: nat)
    requires Asks(keys, input) && i < |UnboundOf(input, table)|
    ensures UnboundKey(input, UnboundOf(input, table)[i]) in keys
  {
    hide Bound, Carried;
    UnboundSpec(input, table, input.alternatives.value);
    assert UnboundOf(input, table)[i] in UnboundOf(input, table);
  }

  /** With names apart and records at home, no name a turn needs is taken. */
  lemma ApartIsClear(keys: iset<Key>, turn: Turn, before: Table)
    requires NamedApart(keys) && Homed(keys, before) && Asks(keys, turn.input)
    ensures ClearTurn(turn, before)
  {
    hide RequesterParts, UnboundOf, BindingName;
    var input, unbound := turn.input, UnboundOf(turn.input, before);
    forall i | 0 <= i < |unbound|
      ensures UnboundKey(input, unbound[i]) in keys && NameOf(input, unbound[i]) !in before
    {
      UnboundAsked(keys, input, before, i);
      UnboundHasNone(input, before, i);
      assert NameOf(input, unbound[i]) == KeyName(UnboundKey(input, unbound[i]));
    }
    forall i, j | 0 <= i < |unbound| && 0 <= j < |unbound| && NameOf(input, unbound[i]) == NameOf(input, unbound[j])
      ensures SameRequester(unbound[i].alternative, unbound[j].alternative)
    {
      assert KeyName(UnboundKey(input, unbound[i])) == KeyName(UnboundKey(input, unbound[j]));
    }
  }

  /** A turn leaves the records at home. */
  lemma HomedStays(keys: iset<Key>, turn: Turn, before: Table, after: Table)
    requires NamedApart(keys) && Homed(keys, before) && Asks(keys, turn.input) && IsTurn(turn, before, after)
    ensures Homed(keys, after)
  {
    hide RequesterParts, UnboundOf, BindingName, IsTurn, ClearTurn, ParseEpoch;
    ApartIsClear(keys, turn, before);
    forall key | key in keys && KeyName(key) in after
      ensures Owned(keys, KeyName(key), after[KeyName(key)])
    {
      var name := KeyName(key);
      if name in before {
        ClearNames(turn, before, after, name);
        KeepsExactly(turn, before, after, name);
        assert Owned(keys, name, before[name]);
        assert BindsKey(after[name], key);
      } else {
        var i := AddedIsUnbound(turn, before, after, name);
        UnboundAsked(keys, turn.input, before, i);
        assert BindsKey(after[name], UnboundKey(turn.input, UnboundOf(turn.input, before)[i]));
      }
    }
  }

  lemma {:induction false} RunHomed(keys: iset<Key>, turns: seq<Turn>, tables: seq<Table>, n: nat)
    requires IsRun(turns, tables) && NamedApart(keys) && InPlay(keys, turns, tables[0]) && n < |tables|
    ensures Homed(keys, tables[n])
  {
    hide IsTurn, Homed, NamedApart, Asks;
    if n > 0 {
      RunHomed(keys, turns, tables, n - 1);
      assert IsTurn(turns[n - 1], tables[n - 1], tables[n - 1 + 1]) && Asks(keys, turns[n - 1].input);
      HomedStays(keys, turns[n - 1], tables[n - 1], tables[n]);
    }
  }

  /** So every turn of such a run is clear. */
  lemma RunClear(keys: iset<Key>, turns: seq<Turn>, tables: seq<Table>)
    requires IsRun(turns, tables) && NamedApart(keys) && InPlay(keys, turns, tables[0])
    ensures ClearRun(turns, tables)
  {
    hide IsTurn, Homed, NamedApart, Asks, ClearTurn;
    forall i | 0 <= i < |turns|
      ensures ClearTurn(turns[i], tables[i])
    {
      RunHomed(keys, turns, tables, i);
      ApartIsClear(keys, turns[i], tables[i]);
    }
  }

  /**
   Over every run whose requesters are named apart, with any grants and epochs each time, and passes cut
   short anywhere: a binding keeps its requester, credential and account, its epochs only grow and
   strictly, and once ended it never changes again.
   */
  lemma RunKeeps(keys: iset<Key>, turns: seq<Turn>, tables: seq<Table>, name: string, n: nat)
    requires IsRun(turns, tables) && NamedApart(keys) && InPlay(keys, turns, tables[0])
    requires n < |tables| && name in tables[0]
    ensures name in tables[n] && Evolves(tables[0][name], tables[n][name])
  {
    hide IsTurn, Homed, NamedApart, Asks, ClearRun, Evolves;
    RunClear(keys, turns, tables);
    ClearRunKeeps(turns, tables, name, n);
  }

  /** Over every such run, a requester that has ever had a binding never gets another one. */
  lemma NoSecondBinding(keys: iset<Key>, turns: seq<Turn>, tables: seq<Table>, n: nat, key: Key, name: string)
    requires IsRun(turns, tables) && NamedApart(keys) && InPlay(keys, turns, tables[0]) && n < |tables|
    requires Bound(tables[0], key.convoy, key.role, key.access) && name in tables[n] && BindsKey(tables[n][name], key)
    ensures name in tables[0] && BindsKey(tables[0][name], key)
  {
    hide IsTurn, Homed, NamedApart, Asks, ClearRun, Bound, BindsKey;
    RunClear(keys, turns, tables);
    ClearRunNoSecond(turns, tables, n, key, name);
  }

  /** What a turn leaves under a name that had a record: its continued history, or a record just opened. */
  lemma TurnLineage(turn: Turn, before: Table, after: Table, name: string)
    requires IsTurn(turn, before, after) && name in before && Lineage(before[name])
    ensures name in after && Lineage(after[name])
  {
    hide RequesterParts, UnboundOf, BindingName, OpenAll, OpensAll, NameOf, Lineage, Evolves;
    KeepsExactly(turn, before, after, name);
    if Evolves(before[name], after[name]) {
      EvolvesLineage(before[name], after[name]);
    } else {
      PendingOpen(turn.input, UnboundOf(turn.input, before), turn.pending);
      OpenedAt(turn.middle, turn.pending, name);
      var i := HasFirst(turn.pending, name);
      PendingFacts(turn.input, UnboundOf(turn.input, before), turn.pending, i);
    }
  }

  /** Over every run, name clashes included, every lineage stays strictly increasing, those opened on the way too. */
  lemma {:induction false} RunLineages(turns: seq<Turn>, tables: seq<Table>, n: nat, name: string)
    requires IsRun(turns, tables) && n < |tables| && name in tables[n]
    requires forall other <- tables[0] :: Lineage(tables[0][other])
    ensures Lineage(tables[n][name])
  {
    hide IsTurn, Lineage, UnboundOf;
    if n > 0 {
      assert IsTurn(turns[n - 1], tables[n - 1], tables[n - 1 + 1]);
      if name in tables[n - 1] {
        RunLineages(turns, tables, n - 1, name);
        TurnLineage(turns[n - 1], tables[n - 1], tables[n], name);
      } else {
        var i := AddedIsUnbound(turns[n - 1], tables[n - 1], tables[n], name);
      }
    }
  }

  // ---- The records ----

  /** A binding as stored: a write must name the version it read. */
  datatype Record = Record(version: nat, binding: Binding)

  type Records = map<string, Record>

  datatype Change =
    | Opened | GrantsUpdated | EpochAppended(epoch: U32) | Revocation(reason: string) | Closure(reason: string)

  /** What a reported change says of the binding it changed. */
  ghost predicate Describes(change: Change, before: Binding, after: Binding) {
    && after != before
    && match change
       case Opened => false
       case GrantsUpdated => after == before.(grants := after.grants)
       case EpochAppended(epoch) =>
         && after.state == before.state && |after.epochs| == |before.epochs| + 1
         && after.epochs[|before.epochs|].text == NatText(epoch)
       case Revocation(reason) => after.state.Revoked? && after.state.reason == reason
       case Closure(reason) => after.state.Closed? && after.state.reason == reason
  }

  /** The report names the bindings that changed, and says how each did. */
  ghost predicate Reports(changes: seq<(string, Change)>, before: Table, after: Table)
    requires after.Keys == before.Keys
  {
    && (forall i | 0 <= i < |changes| ::
          changes[i].0 in before && Describes(changes[i].1, before[changes[i].0], after[changes[i].0]))
    && forall name <- before | after[name] != before[name] :: exists i | 0 <= i < |changes| :: changes[i].0 == name
  }

  /** What the pass must make of every binding of a table. */
  ghost predicate IsPass(input: Input, before: Table, after: Table) {
    after.Keys == before.Keys && forall name <- before :: IsPassed(input, name, before[name], after[name])
  }

  function TableOf(records: Records): Table {
    map name | name in records :: records[name].binding
  }

  /** A record can be made for the requester: it can be selected for, and its names make an address. */
  predicate Bindable(input: Input, unbound: Unbound) {
    && Selectable(unbound.alternative, PinOf(unbound))
    && input.project != Some("") && input.convoy != "" && unbound.alternative.requester.role != ""
  }

  function PinOf(unbound: Unbound): Option<(string, string)> {
    if unbound.carried.None? then None else Some((unbound.carried.value, SNAPSHOT_PIN))
  }

  lemma {:induction false} CarriedOf(input: Input, table: Table, alternatives: seq<Alternative>)
    ensures forall u <- UnboundAmong(input, table, alternatives) :: u.carried == Carried(input, u.alternative)
  {
    hide Wants, Carried;
    if alternatives != [] {
      CarriedOf(input, table, alternatives[1..]);
    }
  }

  /**
   What the pass returns can be bound, exactly unless some name is empty, or nothing is carried and there
   are more candidates than a draw can index.
   */
  lemma PassReturnsBindable(input: Input, table: Table, unbound: Unbound)
    requires unbound in UnboundOf(input, table) && unbound.alternative.exclusions == map[]
    ensures Bindable(input, unbound) <==>
            && (unbound.carried.None? ==> |unbound.alternative.candidates.Keys| < U32_LIMIT)
            && input.project != Some("") && input.convoy != "" && unbound.alternative.requester.role != ""
  {
    hide Bound;
    var alternative := unbound.alternative;
    assert alternative.candidates.Keys == {} ==> alternative.candidates == map[];
    UnboundSpec(input, table, input.alternatives.value);
    CarriedOf(input, table, input.alternatives.value);
    assert Wants(input, table, alternative);
    assert UsableNames(alternative) == alternative.candidates.Keys;
    CarriedIsOnly(input, alternative);
  }

  /** Some bindings have had their turn, and those pending are as they were read. */
  ghost predicate Midway(input: Input, snapshot: Records, records: Records, pending: set<string>) {
    && records.Keys == snapshot.Keys
    && forall name <- snapshot ::
         if name in pending then records[name] == snapshot[name]
         else records[name].binding == Passed(input, name, snapshot[name].binding)
  }

  lemma MidwayStart(input: Input, records: Records)
    ensures Midway(input, records, records, records.Keys)
  {
  }

  lemma MidwayAt(input: Input, snapshot: Records, records: Records, pending: set<string>, name: string)
    requires Midway(input, snapshot, records, pending) && name in pending && name in snapshot
    ensures records.Keys == snapshot.Keys && records[name] == snapshot[name]
  {
  }

  lemma MidwayStep(input: Input, snapshot: Records, before: Records, after: Records, pending: set<string>, name: string)
    requires Midway(input, snapshot, before, pending) && name in pending && name in snapshot
    requires name in after && after == before[name := after[name]]
             && Evolves(snapshot[name].binding, after[name].binding)
    ensures Evolution(TableOf(snapshot), TableOf(after)) && after.Keys == snapshot.Keys
    ensures after[name].binding == Passed(input, name, snapshot[name].binding) ==>
              Midway(input, snapshot, after, pending - {name})
  {
    hide Passed, Evolves;
    forall other | other in snapshot
      ensures Evolves(snapshot[other].binding, after[other].binding)
    {
      EvolvesItself(snapshot[other].binding);
      PassedEvolves(input, other, snapshot[other].binding);
    }
  }

  lemma MidwayEnd(input: Input, snapshot: Records, records: Records)
    requires Midway(input, snapshot, records, {})
    ensures TableOf(records) == PassTable(input, TableOf(snapshot)) && Evolution(TableOf(snapshot), TableOf(records))
  {
    hide Passed, Evolves;
    forall name | name in snapshot
      ensures Evolves(snapshot[name].binding, records[name].binding)
    {
      PassedEvolves(input, name, snapshot[name].binding);
    }
  }

  /** The record is for the requester as addressed, opened now, with the credential the rule for selecting one picks. */
  predicate Made(input: Input, unbound: Unbound, below: nat -> nat, binding: Binding) {
    && binding.requester == Plain(
         (if input.project.Some? then [Segment(Kinds.Project, input.project.value)] else []) +
         [Segment(Kinds.Convoy, input.convoy), Segment(Kinds.Role, unbound.alternative.requester.role)])
    && (unbound.carried.Some? ==> binding.selection == Pin("admitted workflow snapshot"))
    && binding.openedAt == binding.since == input.now && binding.epochs != []
    && binding.epochs[0].observedAt == input.now
    && IsSelected(
         unbound.alternative, PinOf(unbound), below, Selected(binding.credential, binding.selection))
  }

  ghost predicate MadeAll(input: Input, unbound: seq<Unbound>, below: nat -> nat, pending: seq<Pending>) {
    |pending| <= |unbound| && forall i | 0 <= i < |pending| :: Made(input, unbound[i], below, pending[i].1)
  }

  /** Selects a credential for the requester and makes its record. */
  method MakePending(
    lower: string -> string, input: Input, unbound: Unbound, below: nat -> nat)
    returns (r: Result<Pending, Refusal>)
    requires forall bound | bound > 0 :: below(bound) < bound
    ensures r.Ok? <==> Bindable(input, unbound)
    ensures r.Ok? ==> Opens(input, unbound, r.value) && Made(input, unbound, below, r.value.1)
    ensures r.Err? ==> r.error != Conflict
  {
    hide RequesterAddress, RequesterParts, Rank;
    var alternative := unbound.alternative;
    var requester := alternative.requester;
    var selected := Select(alternative, PinOf(unbound), below);
    if selected.Err? {
      return Err(selected.error);
    }
    var Selected(credential, selection) := selected.value;
    var candidate := alternative.candidates[credential];
    var address := RequesterAddress(lower, input.project, input.convoy, requester.role);
    RequesterRoundTrip(lower, input.project, input.convoy, requester.role);
    if address.Err? {
      return Err(BadRequester);
    }
    var binding := Binding(
      address.value, requester.item, requester.access, credential, candidate.account, candidate.grants,
      alternative.candidates.Keys, alternative.exclusions, selection,
      [Epoch(NatText(candidate.epoch), input.now)], input.now, State.Open, input.now);
    return Ok((BindingName(input.convoy, requester.role, requester.access), binding));
  }

  method MakeAll(lower: string -> string, input: Input, unbound: seq<Unbound>, below: nat -> nat)
    returns (r: Result<seq<Pending>, Refusal>)
    requires forall bound | bound > 0 :: below(bound) < bound
    ensures r.Ok? <==> forall i | 0 <= i < |unbound| :: Bindable(input, unbound[i])
    ensures r.Ok? ==>
              |r.value| == |unbound| && OpensAll(input, unbound, r.value) && MadeAll(input, unbound, below, r.value)
    ensures r.Err? ==> r.error != Conflict
  {
    hide Opens, Bindable, Made;
    var pending: seq<Pending> := [];
    for i := 0 to |unbound|
      invariant |pending| == i && OpensAll(input, unbound, pending) && MadeAll(input, unbound, below, pending)
      invariant forall j | 0 <= j < i :: Bindable(input, unbound[j])
    {
      var record := MakePending(lower, input, unbound[i], below);
      if record.Err? {
        return Err(record.error);
      }
      pending := pending + [record.value];
    }
    return Ok(pending);
  }

  class Store {
    var records: Records
    var clock: nat
    var calls: nat
    const failing: nat -> bool

    constructor (failing: nat -> bool)
      ensures records == map[] && clock == 0 && this.failing == failing && Valid()
    {
      records, clock, calls, this.failing := map[], 0, 0, failing;
    }

    /** Versions in use are past ones, so the next is new. */
    ghost predicate Valid()
      reads this
    {
      forall name <- records :: records[name].version <= clock
    }

    ghost function Table(): Table
      reads this
    {
      TableOf(records)
    }

    /** Writes at the version read; a record another write has moved, or that is missing, is a conflict. */
    method Update(name: string, version: nat, binding: Binding) returns (r: Result<(), Refusal>)
      requires Valid()
      modifies this
      ensures Valid() && clock >= old(clock)
      ensures r.Ok? ==> name in old(records) && old(records)[name].version == version
                        && clock > old(clock) && records == old(records)[name := Record(clock, binding)]
      ensures r.Err? ==> records == old(records) && (r.error == Conflict || r.error == Unavailable)
      ensures name in old(records) && old(records)[name].version == version ==> r != Err(Conflict)
    {
      calls := calls + 1;
      if failing(calls) {
        return Err(Unavailable);
      }
      if name !in records || records[name].version != version {
        return Err(Conflict);
      }
      clock := clock + 1;
      records := records[name := Record(clock, binding)];
      return Ok(());
    }

    method Create(name: string, binding: Binding) returns (r: Result<(), Refusal>)
      requires Valid() && name !in records
      modifies this
      ensures Valid()
      ensures r.Ok? ==> records == old(records)[name := Record(clock, binding)]
      ensures r.Err? ==> records == old(records) && r.error == Unavailable
    {
      calls := calls + 1;
      if failing(calls) {
        return Err(Unavailable);
      }
      clock := clock + 1;
      records := records[name := Record(clock, binding)];
      return Ok(());
    }

    /** Appends an epoch to an open binding, as read; a full lineage refuses. */
    method Observe(name: string, record: Record, epoch: U32, now: int) returns (r: Result<(), Refusal>)
      requires Valid() && name in records && records[name] == record
      modifies this
      ensures Valid() && clock >= old(clock)
      ensures r.Ok? ==>
                clock > old(clock)
                    && records == old(records)[name := Record(clock, Observed(record.binding, Some(epoch), now))]
      ensures r.Err? ==> records == old(records)
      ensures r.Err? ==> r.error == Unavailable || (r.error == LineageFull && |record.binding.epochs| >= U32_LIMIT)
    {
      if |record.binding.epochs| >= U32_LIMIT {
        return Err(LineageFull);
      }
      r := Update(name, record.version, Observed(record.binding, Some(epoch), now));
    }

    /** One open binding against the alternatives: at most two writes, the second at the version the first left. */
    method ReconcileOpen(name: string, record: Record, alternatives: seq<Alternative>, until: Option<int>, now: int)
      returns (r: Result<Option<Change>, Refusal>)
      requires Valid() && name in records && records[name] == record && record.binding.state.Open?
      modifies this
      ensures Valid() && name in records && records == old(records)[name := records[name]]
      ensures Evolves(record.binding, records[name].binding)
      ensures r.Ok? ==> records[name].binding == Reconciled(record.binding, alternatives, until, now)
      ensures r.Ok? && r.value.Some? ==> Describes(r.value.value, record.binding, records[name].binding)
      ensures r.Ok? ==> (r.value == None <==> records == old(records))
      ensures r.Err? ==> r.error == Unavailable || (r.error == LineageFull && !Lineage(record.binding))
    {
      hide Judge, ParseEpoch, Evolves, Lineage;
      var binding := record.binding;
      EvolvesItself(binding);
      ReconciledEvolves(binding, alternatives, until, now);
      match Judge(binding, alternatives)
      case Stand =>
        return Ok(None);
      case Revoke(reason) =>
        var written := Update(name, record.version, Ended(binding, Revoked(reason, until), now));
        if written.Err? {
          return Err(written.error);
        }
        return Ok(Some(Revocation(reason)));
      case Follow(grants, next) =>
        var change: Option<Change>, current := None, record;
        if binding.grants != grants {
          GrantsEvolve(binding, grants);
          var written := Update(name, current.version, binding.(grants := grants));
          if written.Err? {
            return Err(written.error);
          }
          change := Some(GrantsUpdated);
          if next.Some? {
            current := records[name];
          }
        }
        if next.Some? {
          var written := Observe(name, current, next.value, now);
          if written.Err? {
            if Lineage(binding) {
              NextHasRoom(binding, alternatives);
            }
            return Err(written.error);
          }
          change := Some(EpochAppended(next.value));
        }
        return Ok(change);
    }

    /** The pass's turn at one binding of its convoy. */
    method PassOne(input: Input, name: string, record: Record) returns (r: Result<Option<Change>, Refusal>)
      requires Valid() && name in records && records[name] == record
      modifies this
      ensures Valid() && name in records && records == old(records)[name := records[name]]
      ensures Evolves(record.binding, records[name].binding)
      ensures r.Ok? ==> records[name].binding == Passed(input, name, record.binding)
      ensures r.Ok? ==> IsPassed(input, name, record.binding, records[name].binding)
      ensures r.Ok? && r.value.Some? ==> Describes(r.value.value, record.binding, records[name].binding)
      ensures r.Ok? ==> (r.value == None <==> records == old(records))
      ensures r.Err? ==> r.error == Unavailable || (r.error == LineageFull && !Lineage(record.binding))
    {
      hide Reconciled, RequesterParts, Evolves, IsPassed, Describes;
      EvolvesItself(record.binding);
      PassedMeans(input, name, record.binding);
      if !record.binding.state.Open? || !InConvoy(record.binding, input.convoy) {
        return Ok(None);
      }
      if input.terminal {
        PassedEvolves(input, name, record.binding);
        var written :=
            Update(name, record.version, Ended(record.binding, Closed(TEARDOWN, Until(input, name)), input.now));
        if written.Err? {
          return Err(written.error);
        }
        ClosureDescribes(record.binding, Until(input, name), input.now);
        return Ok(Some(Closure(TEARDOWN)));
      }
      if input.alternatives.None? {
        return Ok(None);
      }
      r := ReconcileOpen(name, record, input.alternatives.value, Until(input, name), input.now);
    }

    /**
     The home pass. No write conflicts: each names the version it read or the one the pass's own previous
     write left. It refuses only when the store does, or a lineage is full.
     */
    method Pass(input: Input) returns (r: Result<(seq<(string, Change)>, seq<Unbound>), Refusal>)
      requires Valid()
      modifies this
      ensures Valid() && Evolution(old(Table()), Table())
      ensures r.Ok? ==> Table() == PassTable(input, old(Table())) && r.value.1 == UnboundOf(input, old(Table()))
      ensures r.Ok? ==> IsPass(input, old(Table()), Table()) && Reports(r.value.0, old(Table()), Table())
      ensures r.Ok? ==> (r.value.0 == [] <==> records == old(records))
      ensures r.Err? ==> r.error == Unavailable || r.error == LineageFull
      ensures (forall name <- old(records) :: Lineage(old(records)[name].binding)) ==> r != Err(LineageFull)
    {
      hide Midway, Evolution, UnboundOf, Lineage, Passed, Evolves, Reports, Describes, IsPass;
      var snapshot := records;
      var changes: seq<(string, Change)> := [];
      var pending := snapshot.Keys;
      MidwayStart(input, snapshot);
      NothingToReport(snapshot);
      while pending != {}
        invariant Valid() && pending <= snapshot.Keys && Midway(input, snapshot, records, pending)
        invariant records.Keys == snapshot.Keys && Reports(changes, TableOf(snapshot), TableOf(records))
        invariant changes == [] <==> records == snapshot
      {
        var name :| name in pending;
        ghost var before := records;
        MidwayAt(input, snapshot, records, pending, name);
        var change := PassOne(input, name, snapshot[name]);
        MidwayStep(input, snapshot, before, records, pending, name);
        if change.Err? {
          return Err(change.error);
        }
        pending := pending - {name};
        if change.value.Some? {
          ReportsMore(changes, snapshot, before, records, name, change.value.value);
          changes := changes + [(name, change.value.value)];
          Moved(snapshot, before, records, name);
        }
      }
      MidwayEnd(input, snapshot, records);
      PassTableMeans(input, TableOf(snapshot));
      return Ok((changes, UnboundOf(input, TableOf(snapshot))));
    }

    /** A requester that already holds an open binding keeps it; an ended one under the name is written over. */
    method Open(pending: Pending) returns (r: Result<(), Refusal>)
      requires Valid()
      modifies this
      ensures Valid()
      ensures r.Ok? ==> Table() == OpenOne(old(Table()), pending)
      ensures r.Err? ==> r.error == Unavailable && Table() == old(Table())
    {
      var (name, binding) := pending;
      if name in records && records[name].binding.state.Open? {
        return Ok(());
      }
      if name in records {
        r := Update(name, records[name].version, binding);
      } else {
        r := Create(name, binding);
      }
      if r.Ok? {
        assert Table() == old(Table())[name := binding];
      }
    }

    /** Opens each in turn, up to the first write that fails; `n` of them were opened. */
    method OpenEach(pending: seq<Pending>) returns (r: Result<(), Refusal>, ghost n: nat)
      requires Valid()
      modifies this
      ensures Valid() && n <= |pending| && Table() == OpenAll(old(Table()), pending[..n])
      ensures if r.Ok? then n == |pending| else r.error == Unavailable
    {
      hide OpenOne;
      n := 0;
      for i := 0 to |pending|
        invariant Valid() && n == i && Table() == OpenAll(old(Table()), pending[..i])
      {
        r := Open(pending[i]);
        if r.Err? {
          return;
        }
        n := n + 1;
        assert pending[..n][..i] == pending[..i];
      }
      return Ok(()), n;
    }

    /** Binds the unbound: every record is made before any is opened, so a refusal writes nothing. */
    method Bind(lower: string -> string, input: Input, unbound: seq<Unbound>, below: nat -> nat)
      returns (r: Result<seq<(string, Change)>, Refusal>, ghost made: seq<Pending>)
      requires Valid() && forall bound | bound > 0 :: below(bound) < bound
      modifies this
      ensures Valid() && OpensAll(input, unbound, made) && Table() == OpenAll(old(Table()), made)
      ensures MadeAll(input, unbound, below, made)
      ensures r.Ok? ==>
                |made| == |unbound| == |r.value| && forall i | 0 <= i < |made| :: r.value[i] == (made[i].0, Opened)
      ensures r.Err? && (forall i | 0 <= i < |unbound| :: Bindable(input, unbound[i])) ==> r.error == Unavailable
      ensures (exists i | 0 <= i < |unbound| :: !Bindable(input, unbound[i])) ==> r.Err? && made == []
      ensures r.Err? ==> r.error != Conflict
    {
      hide Opens, Bindable, OpenOne, Made;
      var pending := MakeAll(lower, input, unbound, below);
      if pending.Err? {
        return Err(pending.error), [];
      }
      var changes := seq(|pending.value|, i requires 0 <= i < |pending.value| => (pending.value[i].0, Opened));
      var written;
      ghost var n;
      written, n := OpenEach(pending.value);
      made := pending.value[..n];
      r := if written.Err? then Err(written.error) else Ok(changes);
    }

    /** The pass, and then the bind when the convoy, read again under the admission lock, has not ended. */
    method Reconcile(lower: string -> string, input: Input, running: bool, below: nat -> nat)
      returns (r: Result<seq<(string, Change)>, Refusal>, ghost turn: Turn)
      requires Valid() && forall bound | bound > 0 :: below(bound) < bound
      modifies this
      ensures Valid() && turn.input == input && IsTurn(turn, old(Table()), Table())
      ensures r.Ok? ==> turn.middle == PassTable(input, old(Table()))
      ensures r.Ok? && running ==> |turn.pending| == |UnboundOf(input, old(Table()))|
      ensures r.Err? ==> r.error != Conflict
    {
      hide Evolves, Opens, UnboundOf, PassTable, RequesterParts, Bindable;
      ghost var before := Table();
      var passed := Pass(input);
      turn := Turn(input, Table(), []);
      if passed.Err? {
        return Err(passed.error), turn;
      }
      var (changes, unbound) := passed.value;
      if unbound == [] || !running {
        return Ok(changes), turn;
      }
      var bound;
      ghost var made;
      bound, made := Bind(lower, input, unbound, below);
      turn := turn.(pending := made);
      r := if bound.Err? then Err(bound.error) else Ok(changes + bound.value);
    }
  }

  lemma ClosureDescribes(binding: Binding, until: Option<int>, now: int)
    requires binding.state.Open?
    ensures Describes(Closure(TEARDOWN), binding, Ended(binding, Closed(TEARDOWN, until), now))
  {
  }

  lemma NothingToReport(records: Records)
    ensures Reports([], TableOf(records), TableOf(records))
  {
  }

  lemma ReportsMore(
    changes: seq<(string, Change)>, snapshot: Records, before: Records, after: Records, name: string, change: Change)
    requires before.Keys == snapshot.Keys && name in snapshot && before[name] == snapshot[name]
    requires name in after && after == before[name := after[name]]
    requires Reports(changes, TableOf(snapshot), TableOf(before))
    requires Describes(change, snapshot[name].binding, after[name].binding)
    ensures Reports(changes + [(name, change)], TableOf(snapshot), TableOf(after))
  {
    var tables, more := (TableOf(snapshot), TableOf(before), TableOf(after)), changes + [(name, change)];
    assert forall i | 0 <= i < |changes| :: more[i] == changes[i];
    assert more[|changes|] == (name, change);
    forall other | other in tables.0 && tables.2[other] != tables.0[other]
      ensures exists i | 0 <= i < |more| :: more[i].0 == other
    {
      if other != name {
        var i :| 0 <= i < |changes| && changes[i].0 == other;
        assert more[i].0 == other;
      }
    }
  }

  /** The pass over a table is a pass over each of its bindings. */
  lemma PassTableMeans(input: Input, table: Table)
    ensures IsPass(input, table, PassTable(input, table))
  {
    hide Passed, IsPassed;
    forall name | name in table
      ensures IsPassed(input, name, table[name], PassTable(input, table)[name])
    {
      PassedMeans(input, name, table[name]);
    }
  }

  /** An epoch the alternatives call for fits in a lineage. */
  lemma NextHasRoom(binding: Binding, alternatives: seq<Alternative>)
    requires Lineage(binding) && Judge(binding, alternatives).Follow? && Judge(binding, alternatives).next.Some?
    ensures |binding.epochs| < U32_LIMIT
  {
    hide ParseEpoch, Bindings.Find, RequesterParts;
    LineageHasRoom(binding, Judge(binding, alternatives).next.value);
  }

  /** A change to a record that was as it had been read leaves the records different from what was read. */
  lemma Moved(snapshot: Records, before: Records, after: Records, name: string)
    requires name in snapshot && before.Keys == after.Keys == snapshot.Keys && before[name] == snapshot[name]
    requires after != before && forall other <- snapshot | other != name :: after[other] == before[other]
    ensures after != snapshot
  {
    assert after[name] == before[name] ==> after == before;
  }

  lemma GrantsEvolve(binding: Binding, grants: map<string, string>)
    requires binding.state.Open?
    ensures Evolves(binding, binding.(grants := grants))
  {
    hide ParseEpoch;
  }

  // ---- Where the promises stop ----

  function SampleAddress(convoy: string, role: string): Address {
    Plain([Segment(Kinds.Convoy, convoy), Segment(Kinds.Role, role)])
  }

  lemma SampleParts(convoy: string, role: string)
    ensures RequesterParts(SampleAddress(convoy, role)) == Some((convoy, role))
  {
    var segments := SampleAddress(convoy, role).segments;
    assert segments[..1] == [Segment(Kinds.Convoy, convoy)];
    assert LastOf(segments[..1], Kinds.Convoy) == Some(convoy);
  }

  function SampleBinding(key: Key, grants: map<string, string>, state: State): Binding {
    Binding(
      SampleAddress(key.convoy, key.role), "claude-code", key.access, "key", None, grants, {"key"}, map[], Draw(0),
      [Epoch(NatText(1), 0)], 0, state, 0)
  }

  function SampleAlternative(vessel: string, key: Key, candidates: map<string, Candidate>): Alternative {
    Alternative(Requester(vessel, key.role, "claude-code", key.access), candidates, map[])
  }

  const SAMPLE_CANDIDATES := map["key" := Candidate(None, map["grant" := "account"], 1)]

  /** A pass over a convoy with one authorized requester and nothing carried. */
  function SampleInput(key: Key): Input {
    Input(key.convoy, None, false, Some([SampleAlternative("vessel", key, SAMPLE_CANDIDATES)]), map[], {}, 1)
  }

  /** Its one requester is unbound unless the table binds it, and can be bound when its names are not empty. */
  lemma SampleUnbound(key: Key, table: Table)
    requires !Bound(table, key.convoy, key.role, key.access)
    ensures var unbound := Unbound(SampleAlternative("vessel", key, SAMPLE_CANDIDATES), None);
            && UnboundOf(SampleInput(key), table) == [unbound]
            && (key.convoy != "" && key.role != "" ==> Bindable(SampleInput(key), unbound))
  {
    hide Bound;
    var alternative := SampleAlternative("vessel", key, SAMPLE_CANDIDATES);
    assert alternative.candidates.Keys == {"key"} && alternative.exclusions.Keys == {};
    assert UsableNames(alternative) == {"key"};
    assert "key" in alternative.candidates && Wants(SampleInput(key), table, alternative);
    assert UnboundAmong(SampleInput(key), table, [alternative][1..]) == [];
  }

  /** Whenever two requesters share a name, a pass for one writes over the other's revoked binding. */
  lemma SharedNameReopens(ended: Key, asked: Key) returns (turn: Turn, before: Table, after: Table)
    requires ended != asked && KeyName(ended) == KeyName(asked)
    ensures IsTurn(turn, before, after) && turn.input == SampleInput(asked)
    ensures turn.middle == PassTable(turn.input, before) && !ClearTurn(turn, before)
    ensures before == map[KeyName(ended) := SampleBinding(ended, map[], Revoked(NO_GRANT, None))]
    ensures KeyName(ended) in after && after[KeyName(ended)].state.Open? && BindsKey(after[KeyName(ended)], asked)
  {
    SampleParts(ended.convoy, ended.role);
    SampleParts(asked.convoy, asked.role);
    hide SampleAddress, RequesterParts, BindingName, ParseEpoch, Evolves, NatText, Bindable, UnboundOf;
    var name, lost := KeyName(ended), SampleBinding(ended, map[], Revoked(NO_GRANT, None));
    var alternative, input := SampleAlternative("vessel", asked, SAMPLE_CANDIDATES), SampleInput(asked);
    before := map[name := lost];
    var pending: Pending := (name, SampleBinding(asked, map["grant" := "account"], State.Open));
    turn := Turn(input, PassTable(input, before), [pending]);
    after := OpenAll(turn.middle, [pending]);
    EvolvesItself(lost);
    SampleUnbound(asked, before);
    assert Opens(input, Unbound(alternative, None), pending);
    assert OpenAll(turn.middle, [pending][..0]) == turn.middle;
    assert NameOf(input, UnboundOf(input, before)[0]) == name;
    assert after[name] == pending.1;
  }

  /**
   A pass over convoy `a` binds role `b.c` under the name of the revoked binding of convoy `a.b`'s role `c`,
   so that binding is lost and its record is open again.
   */
  lemma CollisionReopens() returns (turn: Turn, before: Table, after: Table, name: string)
    ensures IsTurn(turn, before, after) && turn.middle == PassTable(turn.input, before)
    ensures name in before && before[name].state.Revoked? && name in after && after[name].state.Open?
    ensures BindsKey(before[name], Key("a.b", "c", "x")) && BindsKey(after[name], Key("a", "b.c", "x"))
  {
    NamesCollide();
    SampleParts("a.b", "c");
    hide SampleAddress, RequesterParts, BindingName, IsTurn, PassTable;
    name := KeyName(Key("a.b", "c", "x"));
    turn, before, after := SharedNameReopens(Key("a.b", "c", "x"), Key("a", "b.c", "x"));
  }

  ghost predicate KeptAt(tables: seq<Table>, n: nat, name: string)
    requires n < |tables| && name in tables[0]
  {
    name in tables[n] && Evolves(tables[0][name], tables[n][name])
  }

  /** Every run among these requesters keeps every binding it starts with. */
  ghost predicate AllRunsKeep(keys: iset<Key>) {
    forall turns, tables, n: nat, name |
      IsRun(turns, tables) && InPlay(keys, turns, tables[0]) && n < |tables| && name in tables[0] ::
          KeptAt(tables, n, name)
  }

  /** The runs among some requesters keep all bindings exactly when those requesters are named apart. */
  lemma AllRunsKeepExactly(keys: iset<Key>)
    ensures AllRunsKeep(keys) <==> NamedApart(keys)
  {
    hide IsRun, InPlay, Evolves, IsTurn, PassTable, BindingName, ClearTurn;
    if NamedApart(keys) {
      forall turns, tables, n: nat, name |
        IsRun(turns, tables) && |tables| > 0 && InPlay(keys, turns, tables[0]) && n < |tables| && name in tables[0]
        ensures KeptAt(tables, n, name)
      {
        RunKeeps(keys, turns, tables, name, n);
      }
    } else {
      var a, b :| a in keys && b in keys && KeyName(a) == KeyName(b) && a != b;
      SharedNameLoses(keys, a, b);
    }
  }

  lemma SharedNameLoses(keys: iset<Key>, a: Key, b: Key)
    requires a in keys && b in keys && KeyName(a) == KeyName(b) && a != b
    ensures !AllRunsKeep(keys)
  {
    hide IsTurn, PassTable, BindingName, ClearTurn, RequesterParts, SampleAddress, NatText, ParseEpoch;
    var turn, before, after := SharedNameReopens(a, b);
    var turns, tables := [turn], [before, after];
    assert IsRun(turns, tables);
    SampleParts(a.convoy, a.role);
    assert BindsKey(before[KeyName(a)], a);
    assert Owned(keys, KeyName(a), before[KeyName(a)]);
    assert InPlay(keys, turns, tables[0]);
    assert !KeptAt(tables, 1, KeyName(a));
  }

  /**
   One requester in two vessels, whose repositories differ, so that grants authorize it in the second only:
   the bind takes the second alternative and the next pass, which finds the first, revokes what it opened.
   */
  lemma EmptyFirstRevokes() returns (input: Input, pending: Pending)
    ensures var unbound := UnboundOf(input, map[]);
            && OpensAll(input, unbound, [pending]) && |unbound| == 1 && Clear(input, map[], unbound)
            && Passed(input, pending.0, pending.1).state.Revoked?
    ensures input.alternatives.Some? && |input.alternatives.value| == 2
            && input.alternatives.value[0].requester.vessel != input.alternatives.value[1].requester.vessel
  {
    SampleParts("a", "b");
    hide SampleAddress, RequesterParts, BindingName, ParseEpoch, NatText;
    var key := Key("a", "b", "x");
    var first, second := SampleAlternative("fork", key, map[]), SampleAlternative("own", key, SAMPLE_CANDIDATES);
    input := Input("a", None, false, Some([first, second]), map[], {}, 1);
    pending := (KeyName(key), SampleBinding(key, map["grant" := "account"], State.Open));
    assert Wants(input, map[], second) by {
      assert "key" in second.candidates;
    }
    assert [first, second][1..] == [second] && [second][1..] == [];
    assert UnboundAmong(input, map[], [second]) == [Unbound(second, None)];
    assert UnboundOf(input, map[]) == [Unbound(second, None)];
    assert Opens(input, Unbound(second, None), pending);
  }
}
