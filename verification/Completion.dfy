/** Completing a partial address from the caller's context (crates/flotilla-address/src/completion.rs). */
module Completion {
  import opened Outcomes
  import opened Text
  import opened Casing
  import opened Kinds
  import opened Utf8
  import opened Addresses
  import opened Containment

  datatype CompletionError = Ambiguous(partial: Address, matches: seq<Address>)

  function FirstKind(address: Address): Kind
    requires address.segments != []
  {
    address.segments[0].kind
  }

  /** Whether some kind contains `kind`: an address starting with any other kind is already whole. */
  predicate Contained(kind: Kind) {
    exists parent: Kind :: MayFollow(kind, Some(parent))
  }

  /** The deepest of `ancestor` and its parents that a segment of `kind` may follow. */
  function DeepestAdmitting(kind: Kind, ancestor: Address): Option<Address>
    decreases |ancestor.segments|
  {
    if MayFollow(kind, LastKind(ancestor.segments)) then Some(ancestor)
    else
      match Parent(ancestor)
      case None => None
      case Some(parent) => DeepestAdmitting(kind, parent)
  }

  function Joined(lower: string -> string, parent: Address, partial: Address): Option<Address> {
    match Parse(lower, parent.text + "/" + partial.text)
    case Ok(address) => Some(address)
    case Err(_) => None
  }

  function Place(lower: string -> string, partial: Address, context: Address): Option<Address>
    requires partial.segments != []
  {
    match DeepestAdmitting(FirstKind(partial), context)
    case None => None
    case Some(parent) => Joined(lower, parent, partial)
  }

  /** `place`: the walk up from the context. */
  method PlaceLoop(lower: string -> string, partial: Address, context: Address) returns (r: Option<Address>)
    requires partial.segments != []
    ensures r == Place(lower, partial, context)
  {
    var first := FirstKind(partial);
    var ancestor := Some(context);
    while ancestor.Some?
      invariant ancestor.Some? ==> DeepestAdmitting(first, context) == DeepestAdmitting(first, ancestor.value)
      invariant ancestor.None? ==> DeepestAdmitting(first, context) == None
      decreases if ancestor.Some? then |ancestor.value.segments| + 1 else 0
    {
      var parent := ancestor.value;
      if MayFollow(first, LastKind(parent.segments)) {
        var parsed := ParseLoop(lower, parent.text + "/" + partial.text);
        return match parsed case Ok(address) => Some(address) case Err(_) => None;
      }
      ancestor := ParentLoop(parent);
    }
    return None;
  }

  predicate EndsWith(candidate: Address, partial: Address) {
    && |partial.segments| <= |candidate.segments|
    && candidate.segments[|candidate.segments| - |partial.segments|..] == partial.segments
    && candidate.of == partial.of
  }

  predicate Before(a: Address, b: Address) {
    Less(Utf8.Encode(a.text), Utf8.Encode(b.text))
  }

  /** Inserting into the ordered set: addresses are compared by text, and an equal one is kept once. */
  function Insert(sorted: seq<Address>, address: Address): seq<Address> {
    if sorted == [] then [address]
    else if address.text == sorted[0].text then sorted
    else if Before(address, sorted[0]) then [address] + sorted
    else [sorted[0]] + Insert(sorted[1..], address)
  }

  /** The candidates ending in `partial`, in text order, each once. */
  function Matches(candidates: seq<Address>, partial: Address): seq<Address> {
    if candidates == [] then []
    else
      var rest := Matches(candidates[..|candidates| - 1], partial);
      var last := candidates[|candidates| - 1];
      if EndsWith(last, partial) then Insert(rest, last) else rest
  }

  function Placed(lower: string -> string, partial: Address, context: Option<Address>): Option<Address>
    requires partial.segments != []
  {
    match context
    case None => None
    case Some(address) => Place(lower, partial, address)
  }

  function Complete(lower: string -> string, partial: Address, context: Option<Address>, candidates: seq<Address>)
    : Result<Address, CompletionError>
    requires partial.segments != []
  {
    if !Contained(FirstKind(partial)) then Ok(partial)
    else
      match Placed(lower, partial, context)
      case Some(placed) => Ok(placed)
      case None =>
        var matches := Matches(candidates, partial);
        if matches == [] then Ok(partial)
        else if |matches| == 1 then Ok(matches[0])
        else Err(Ambiguous(partial, matches))
  }

  // ---- Placement ----

  /** The ancestor chosen admits the partial, is in the context's chain, and no deeper one admits it. */
  lemma {:induction false} DeepestIsDeepest(lower: string -> string, kind: Kind, context: Address)
    requires Finished(lower, context)
    ensures var chosen := DeepestAdmitting(kind, context);
            && (chosen.Some? ==>
                  && Finished(lower, chosen.value) && InParentChain(context, chosen.value)
                  && MayFollow(kind, LastKind(chosen.value.segments)))
            && forall other | InParentChain(context, other) && MayFollow(kind, LastKind(other.segments)) ::
                 chosen.Some? && InParentChain(chosen.value, other)
    decreases |context.segments|
  {
    ParentIsOneUp(lower, context);
    if !MayFollow(kind, LastKind(context.segments)) && |context.segments| > 1 {
      DeepestIsDeepest(lower, kind, Parent(context).value);
    }
  }

  /** A segment that may follow another and may also start an address: only these can be completed. */
  lemma CompletableKinds(kind: Kind, parent: Kind)
    requires MayFollow(kind, None) && MayFollow(kind, Some(parent))
    ensures (kind == Convoy && parent == Project) || (kind == Account && parent == Usage)
  {
  }

  /** No partial that can be placed under something holds a repository. */
  lemma {:induction false} PlacedSegment(lower: string -> string, parent: seq<Segment>, partial: seq<Segment>, i: nat)
    requires Admitted(lower, parent) && Admitted(lower, partial) && 0 < i < |partial|
    requires parent != [] && MayFollow(partial[0].kind, LastKind(parent))
    ensures SegmentAdmitted(lower, parent + partial[..i], partial[i])
  {
    AdmittedAt(lower, partial, i);
    assert LastKind(parent + partial[..i]) == LastKind(partial[..i]) == Some(partial[i - 1].kind);
    ShapeAt(lower, partial, i - 1);
  }

  /** The one way a placement is refused: an account that is not in usage form, under a usage provider. */
  predicate UsageFormFits(lower: string -> string, parent: Address, partial: Address)
    requires partial.segments != []
  {
    FirstKind(partial) == Account && LastKind(parent.segments) == Some(Usage) ==>
      NormaliseUsage(lower, partial.segments[0].value) == partial.segments[0].value
  }

  lemma FirstPlaced(lower: string -> string, parent: Address, partial: Address)
    requires Finished(lower, parent) && Finished(lower, partial)
    requires MayFollow(FirstKind(partial), LastKind(parent.segments))
    ensures SegmentAdmitted(lower, parent.segments, partial.segments[0]) <==> UsageFormFits(lower, parent, partial)
  {
    ShapeAt(lower, partial.segments, 0);
    CompletableKinds(FirstKind(partial), LastKind(parent.segments).value);
  }

  lemma {:induction false} AdmittedTogether(
    lower: string -> string, parent: seq<Segment>, partial: seq<Segment>, n: nat)
    requires Admitted(lower, parent) && Admitted(lower, partial) && parent != [] && n <= |partial|
    requires partial != [] && SegmentAdmitted(lower, parent, partial[0])
    ensures Admitted(lower, parent + partial[..n])
    decreases n
  {
    hide ValueAdmitted, GithubRepositoryAdmitted, NormaliseUsage;
    var whole := parent + partial[..n];
    if n == 0 {
      assert whole == parent;
    } else {
      AdmittedTogether(lower, parent, partial, n - 1);
      var before := parent + partial[..n - 1];
      assert whole == before + [partial[n - 1]] && whole[..|whole| - 1] == before;
      if n == 1 {
        assert before == parent;
      } else {
        PlacedSegment(lower, parent, partial, n - 1);
      }
    }
  }

  function Whole(parent: Address, partial: Address): Address {
    Address(parent.segments + partial.segments, partial.of, parent.text + "/" + partial.text)
  }

  /** Joining the two texts parses exactly when usage form allows it, and then to the joined segments. */
  lemma JoinedIsWhole(lower: string -> string, parent: Address, partial: Address)
    requires Finished(lower, parent) && Finished(lower, partial)
    requires MayFollow(FirstKind(partial), LastKind(parent.segments))
    ensures Joined(lower, parent, partial) == if UsageFormFits(lower, parent, partial)
            then Some(Whole(parent, partial)) else None
    ensures UsageFormFits(lower, parent, partial) ==> Finished(lower, Whole(parent, partial))
  {
    assert parent.of == None;
    var whole := Whole(parent, partial);
    RenderAppend(parent.segments, partial.segments, partial.of);
    FirstPlaced(lower, parent, partial);
    assert whole.segments[..|parent.segments|] == parent.segments;
    if UsageFormFits(lower, parent, partial) {
      AdmittedTogether(lower, parent.segments, partial.segments, |partial.segments|);
      assert partial.segments[..|partial.segments|] == partial.segments;
      WholeLast(parent, partial);
      ParseOfPrint(lower, whole);
    } else if Joined(lower, parent, partial).Some? {
      ParsedIsAdmitted(lower, whole);
      AdmittedAt(lower, whole.segments, |parent.segments|);
      assert false;
    }
  }

  lemma ParsedIsAdmitted(lower: string -> string, address: Address)
    requires address.segments != [] && address.text == Render(address.segments, address.of)
    requires Parse(lower, address.text).Ok?
    ensures Admitted(lower, address.segments)
  {
    PrintOfParse(lower, address.text);
    var parsed := Parse(lower, address.text).value;
    RenderInjective(parsed.segments, parsed.of, address.segments, address.of);
  }

  lemma WholeLast(parent: Address, partial: Address)
    requires partial.segments != []
    ensures LastKind(Whole(parent, partial).segments) == LastKind(partial.segments)
  {
  }

  /**
   With a context: the partial goes under the deepest ancestor its first segment may follow, as that
   ancestor's segments followed by its own. Only an account not in usage form stays unplaced.
   */
  lemma PlaceSpec(lower: string -> string, partial: Address, context: Address)
    requires Finished(lower, partial) && Finished(lower, context)
    ensures var chosen := DeepestAdmitting(FirstKind(partial), context);
            && Place(lower, partial, context) ==
               (if chosen.Some? && UsageFormFits(lower, chosen.value, partial)
                   then Some(Whole(chosen.value, partial)) else None)
            && (Place(lower, partial, context).Some? ==> Finished(lower, Place(lower, partial, context).value))
  {
    DeepestIsDeepest(lower, FirstKind(partial), context);
    var chosen := DeepestAdmitting(FirstKind(partial), context);
    if chosen.Some? {
      JoinedIsWhole(lower, chosen.value, partial);
    }
  }

  lemma OneSegmentFinished(lower: string -> string, segment: Segment)
    requires MayFollow(segment.kind, None) && ValueAdmitted(lower, segment.kind, segment.value)
    ensures Finished(lower, Plain([segment]))
  {
    hide Render, ValueAdmitted;
    assert [segment][..0] == [] && Admitted(lower, [segment][..0]);
  }

  /**
   An account that is finished on its own and not placed in a usage context, although it may follow a usage
   provider: its value starts with a space, and usage form is trimmed.
   */
  lemma AccountNotPlaced(lower: string -> string)
    requires Lowercase(lower) && lower("claude") == "claude"
    ensures var parent, partial := Plain([Segment(Usage, "claude")]), Plain([Segment(Account, " a")]);
            && Finished(lower, parent) && Finished(lower, partial)
            && MayFollow(FirstKind(partial), LastKind(parent.segments))
            && Joined(lower, parent, partial) == None && Place(lower, partial, parent) == None
  {
    UsageForms(lower);
    hide *;
    UsageRefuses(lower, "claude", " a");
  }

  lemma UsageRefuses(lower: string -> string, provider: string, account: string)
    requires provider != "" && account != ""
    requires NormaliseUsage(lower, provider) == provider && NormaliseUsage(lower, account) != account
    ensures var parent, partial := Plain([Segment(Usage, provider)]), Plain([Segment(Account, account)]);
            && Finished(lower, parent) && Finished(lower, partial)
            && MayFollow(FirstKind(partial), LastKind(parent.segments))
            && Joined(lower, parent, partial) == None && Place(lower, partial, parent) == None
  {
    OneSegmentFinished(lower, Segment(Usage, provider));
    OneSegmentFinished(lower, Segment(Account, account));
    hide Render, Finished, NormaliseUsage, Joined;
    JoinedIsWhole(lower, Plain([Segment(Usage, provider)]), Plain([Segment(Account, account)]));
  }

  lemma UsageForms(lower: string -> string)
    requires Lowercase(lower) && lower("claude") == "claude"
    ensures NormaliseUsage(lower, "claude") == "claude" && NormaliseUsage(lower, " a") != " a"
  {
    hide Trim;
    TrimIsTrimmed("claude");
    TrimIsTrimmed(" a");
    assert Trimmed(lower(Trim(" a"))) && IsWhitespace(" a"[0]);
  }

  // ---- Candidates ----

  lemma {:induction false} LessTransitive(a: seq<Byte>, b: seq<Byte>, c: seq<Byte>)
    requires Less(a, b) && Less(b, c)
    ensures Less(a, c)
  {
    if a != [] && a[0] == b[0] == c[0] {
      LessTransitive(a[1..], b[1..], c[1..]);
    }
  }

  lemma {:induction false} LessTotal(a: seq<Byte>, b: seq<Byte>)
    ensures !Less(a, a)
    ensures a == b || Less(a, b) || Less(b, a)
  {
    if a != [] {
      if b != [] {
        LessTotal(a[1..], b[1..]);
        assert a == [a[0]] + a[1..] && b == [b[0]] + b[1..];
      } else {
        LessTotal(a[1..], []);
      }
    }
  }

  ghost predicate Sorted(s: seq<Address>) {
    forall i, j | 0 <= i < j < |s| :: Before(s[i], s[j])
  }

  lemma SameTextSameBytes(lower: string -> string, a: Address, b: Address)
    requires Finished(lower, a) && Finished(lower, b)
    ensures Utf8.Encode(a.text) == Utf8.Encode(b.text) <==> a == b
    ensures a.text == b.text <==> a == b
  {
    TextIsIdentity(lower, a, b);
    DecodeOfEncode(a.text);
    DecodeOfEncode(b.text);
  }

  ghost predicate AllFinished(lower: string -> string, addresses: seq<Address>) {
    forall i | 0 <= i < |addresses| :: Finished(lower, addresses[i])
  }

  /** No element of `s` other than `a` itself has `a`'s text. */
  ghost predicate OneByText(s: seq<Address>, a: Address) {
    forall i | 0 <= i < |s| :: s[i].text == a.text ==> s[i] == a
  }

  lemma {:induction false} InsertElements(s: seq<Address>, a: Address)
    requires OneByText(s, a)
    ensures forall x :: x in Insert(s, a) <==> x in s || x == a
  {
    if s != [] {
      assert s == [s[0]] + s[1..];
      InsertElements(s[1..], a);
    }
  }

  lemma {:induction false} InsertSorted(s: seq<Address>, a: Address)
    requires Sorted(s) && OneByText(s, a)
    ensures Sorted(Insert(s, a))
  {
    if s != [] && a.text != s[0].text {
      if Before(a, s[0]) {
        SortedCons(a, s);
      } else {
        InsertSorted(s[1..], a);
        InsertElements(s[1..], a);
        DecodeOfEncode(a.text);
        DecodeOfEncode(s[0].text);
        LessTotal(Utf8.Encode(a.text), Utf8.Encode(s[0].text));
        var rest := Insert(s[1..], a);
        forall i | 0 <= i < |rest|
          ensures Before(s[0], rest[i])
        {
          assert rest[i] in rest;
        }
      }
    }
  }

  lemma SortedCons(a: Address, s: seq<Address>)
    requires Sorted(s) && s != [] && Before(a, s[0])
    ensures Sorted([a] + s)
  {
    forall j | 0 <= j < |s|
      ensures Before(a, s[j])
    {
      if j > 0 {
        LessTransitive(Utf8.Encode(a.text), Utf8.Encode(s[0].text), Utf8.Encode(s[j].text));
      }
    }
  }

  /** Candidates with the same text are the same address. */
  ghost predicate ByText(candidates: seq<Address>) {
    forall i, j | 0 <= i < |candidates| && 0 <= j < |candidates| ::
      candidates[i].text == candidates[j].text ==> candidates[i] == candidates[j]
  }

  lemma FinishedByText(lower: string -> string, candidates: seq<Address>)
    requires AllFinished(lower, candidates)
    ensures ByText(candidates)
  {
    forall i, j | 0 <= i < |candidates| && 0 <= j < |candidates|
      ensures candidates[i].text == candidates[j].text ==> candidates[i] == candidates[j]
    {
      SameTextSameBytes(lower, candidates[i], candidates[j]);
    }
  }

  lemma {:induction false} MatchesElements(candidates: seq<Address>, partial: Address)
    requires ByText(candidates)
    ensures Sorted(Matches(candidates, partial))
    ensures forall x :: x in Matches(candidates, partial) <==> x in candidates && EndsWith(x, partial)
  {
    if candidates != [] {
      var init, last := candidates[..|candidates| - 1], candidates[|candidates| - 1];
      assert candidates == init + [last];
      MatchesElements(init, partial);
      var rest := Matches(init, partial);
      assert forall i | 0 <= i < |rest| :: rest[i] in rest && rest[i] in init;
      assert OneByText(rest, last);
      InsertElements(rest, last);
      InsertSorted(rest, last);
    }
  }

  /** The matches are the candidates that end in the partial, sorted by text, each exactly once. */
  lemma MatchesSpec(lower: string -> string, candidates: seq<Address>, partial: Address)
    requires AllFinished(lower, candidates)
    ensures Sorted(Matches(candidates, partial)) && AllFinished(lower, Matches(candidates, partial))
    ensures forall x :: x in Matches(candidates, partial) <==> x in candidates && EndsWith(x, partial)
  {
    FinishedByText(lower, candidates);
    MatchesElements(candidates, partial);
    var matches := Matches(candidates, partial);
    assert forall i | 0 <= i < |matches| :: matches[i] in matches && matches[i] in candidates;
  }

  /** A strictly sorted sequence is determined by its elements. */
  lemma {:induction false} SortedUnique(s: seq<Address>, t: seq<Address>)
    requires Sorted(s) && Sorted(t) && forall x :: x in s <==> x in t
    ensures s == t
  {
    assert s != [] ==> s[0] in s;
    assert t != [] ==> t[0] in t;
    if s != [] {
      FirstIsLeast(s, t[0]);
      FirstIsLeast(t, s[0]);
      LessTotal(Utf8.Encode(s[0].text), Utf8.Encode(s[0].text));
      if s[0] != t[0] {
        LessTransitive(Utf8.Encode(s[0].text), Utf8.Encode(t[0].text), Utf8.Encode(s[0].text));
      }
      TailElements(s, t);
      SortedUnique(s[1..], t[1..]);
      assert s == [s[0]] + s[1..] && t == [t[0]] + t[1..];
    }
  }

  lemma FirstIsLeast(s: seq<Address>, x: Address)
    requires Sorted(s) && x in s
    ensures s[0] == x || Before(s[0], x)
  {
  }

  lemma TailElements(s: seq<Address>, t: seq<Address>)
    requires Sorted(s) && Sorted(t) && s != [] && t != [] && s[0] == t[0] && forall x :: x in s <==> x in t
    ensures forall x :: x in s[1..] <==> x in t[1..]
  {
    LessTotal(Utf8.Encode(s[0].text), Utf8.Encode(s[0].text));
    assert s[0] !in s[1..] && t[0] !in t[1..];
    assert s == [s[0]] + s[1..] && t == [t[0]] + t[1..];
    assert forall x :: x in s <==> x == s[0] || x in s[1..];
    assert forall x :: x in t <==> x == t[0] || x in t[1..];
  }

  /** Neither the order of the candidates nor repetition among them changes the outcome. */
  lemma CompleteIgnoresOrder(
    lower: string -> string, partial: Address, context: Option<Address>, a: seq<Address>, b: seq<Address>)
    requires Finished(lower, partial) && AllFinished(lower, a) && AllFinished(lower, b)
    requires forall x :: x in a <==> x in b
    ensures Complete(lower, partial, context, a) == Complete(lower, partial, context, b)
  {
    MatchesSpec(lower, a, partial);
    MatchesSpec(lower, b, partial);
    SortedUnique(Matches(a, partial), Matches(b, partial));
  }

  // ---- Completion ----

  ghost predicate Unplaced(lower: string -> string, partial: Address, context: Option<Address>)
    requires partial.segments != []
  {
    Contained(FirstKind(partial)) && Placed(lower, partial, context) == None
  }

  ghost predicate TwoMatch(candidates: seq<Address>, partial: Address) {
    exists x, y :: x in candidates && y in candidates && x != y && EndsWith(x, partial) && EndsWith(y, partial)
  }

  lemma TwoMatchExactly(candidates: seq<Address>, partial: Address)
    requires ByText(candidates)
    ensures |Matches(candidates, partial)| >= 2 <==> TwoMatch(candidates, partial)
  {
    var matches := Matches(candidates, partial);
    MatchesElements(candidates, partial);
    if |matches| >= 2 {
      var x, y := matches[0], matches[1];
      LessTotal(Utf8.Encode(x.text), Utf8.Encode(x.text));
      assert x in matches && y in matches && x != y;
    }
  }

  /** Ambiguity is reported exactly when the partial is unplaced and two distinct candidates match. */
  lemma AmbiguousExactly(lower: string -> string, partial: Address, context: Option<Address>, candidates: seq<Address>)
    requires Finished(lower, partial) && AllFinished(lower, candidates)
    ensures Complete(lower, partial, context, candidates).Err? <==>
            Unplaced(lower, partial, context) && TwoMatch(candidates, partial)
  {
    FinishedByText(lower, candidates);
    TwoMatchExactly(candidates, partial);
  }

  lemma WholeEndsWith(parent: Address, partial: Address)
    ensures EndsWith(Whole(parent, partial), partial)
  {
  }

  lemma PlacedEndsWith(lower: string -> string, partial: Address, context: Address)
    requires Finished(lower, partial) && Finished(lower, context) && Place(lower, partial, context).Some?
    ensures var placed := Place(lower, partial, context).value; Finished(lower, placed) && EndsWith(placed, partial)
  {
    PlaceSpec(lower, partial, context);
    WholeEndsWith(DeepestAdmitting(FirstKind(partial), context).value, partial);
  }

  /** A completed address ends in the partial's segments and subject, and is finished. */
  lemma CompleteEndsWithPartial(
    lower: string -> string, partial: Address, context: Option<Address>, candidates: seq<Address>)
    requires Finished(lower, partial) && AllFinished(lower, candidates)
    requires context.Some? ==> Finished(lower, context.value)
    requires Complete(lower, partial, context, candidates).Ok?
    ensures var completed := Complete(lower, partial, context, candidates).value;
            Finished(lower, completed) && EndsWith(completed, partial)
  {
    var completed := Complete(lower, partial, context, candidates).value;
    if !Contained(FirstKind(partial)) {
      assert completed == partial;
    } else if Placed(lower, partial, context).Some? {
      PlacedEndsWith(lower, partial, context.value);
    } else {
      MatchesSpec(lower, candidates, partial);
      assert completed == partial || completed in Matches(candidates, partial);
    }
  }

  /** Only a project or a usage provider stands above a segment that could also start an address. */
  lemma AboveAStart(lower: string -> string, segments: seq<Segment>, i: nat)
    requires Admitted(lower, segments) && 0 < i < |segments| && MayFollow(segments[i].kind, None)
    ensures !Contained(segments[0].kind)
  {
    ShapeAt(lower, segments, i);
    CompletableKinds(segments[i].kind, segments[i - 1].kind);
    ShapeAt(lower, segments, i - 1);
  }

  /** An address ending in a partial is the partial, or starts with a kind nothing contains. */
  lemma LongerIsWhole(lower: string -> string, address: Address, partial: Address)
    requires Finished(lower, address) && Finished(lower, partial) && EndsWith(address, partial)
    ensures address == partial || !Contained(FirstKind(address))
  {
    var i := |address.segments| - |partial.segments|;
    assert address.segments[i..][0] == address.segments[i];
    ShapeAt(lower, partial.segments, 0);
    if i == 0 {
      assert address.segments[i..] == address.segments;
    } else {
      AboveAStart(lower, address.segments, i);
    }
  }

  /** Completing a completed address changes nothing. */
  lemma CompleteIdempotent(
    lower: string -> string, partial: Address, context: Option<Address>, candidates: seq<Address>)
    requires Finished(lower, partial) && AllFinished(lower, candidates)
    requires context.Some? ==> Finished(lower, context.value)
    requires Complete(lower, partial, context, candidates).Ok?
    ensures var completed := Complete(lower, partial, context, candidates).value;
            completed.segments != [] && Complete(lower, completed, context, candidates) == Ok(completed)
  {
    CompleteEndsWithPartial(lower, partial, context, candidates);
    LongerIsWhole(lower, Complete(lower, partial, context, candidates).value, partial);
  }

  /** Cut any address into a head and a tail that is an address of its own: the tail completes under the head. */
  lemma TailCompletesUnderHead(
    lower: string -> string, whole: Address, head: Address, tail: Address, candidates: seq<Address>)
    requires Finished(lower, whole) && Finished(lower, head) && Finished(lower, tail)
    requires whole.segments == head.segments + tail.segments && whole.of == tail.of
    ensures Complete(lower, tail, Some(head), candidates) == Ok(whole)
  {
    var i := |head.segments|;
    AdmittedAt(lower, whole.segments, i);
    assert whole.segments[..i] == head.segments && whole.segments[i] == tail.segments[0];
    assert DeepestAdmitting(FirstKind(tail), head) == Some(head);
    FirstPlaced(lower, head, tail);
    JoinedIsWhole(lower, head, tail);
    TextIsIdentity(lower, whole, Whole(head, tail));
  }
}
