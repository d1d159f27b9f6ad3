/**
 Containment: an address tree, its parent chain, and the stored prefix query as a byte range
 (crates/flotilla-address/src/address.rs, `parent`, `is_under`, `descendant_bounds` and `Ord`).
 */
module Containment {
  import opened Outcomes
  import opened Text
  import opened Kinds
  import opened Utf8
  import opened Encoding
  import opened Addresses

  /** `parent`: cut the text before its last slash, and before the subject's. */
  function Parent(address: Address): Option<Address> {
    if |address.segments| <= 1 then None
    else
      match CutLast(address.text, if address.of.Some? then 2 else 1)
      case None => None
      case Some(text) => Some(Address(address.segments[..|address.segments| - 1], None, text))
  }

  function CutLast(text: string, times: nat): Option<string>
    decreases times
  {
    if times == 0 then Some(text)
    else
      match RSplitOnce(text, '/')
      case None => None
      case Some((head, _)) => CutLast(head, times - 1)
  }

  method ParentLoop(address: Address) returns (r: Option<Address>)
    ensures r == Parent(address)
  {
    if |address.segments| <= 1 {
      return None;
    }
    var times := if address.of.Some? then 2 else 1;
    var text := address.text;
    for i := 0 to times
      invariant CutLast(address.text, times) == CutLast(text, times - i)
    {
      var pair := RSplitOnce(text, '/');
      if pair == None {
        return None;
      }
      text := pair.value.0;
    }
    return Some(Address(address.segments[..|address.segments| - 1], None, text));
  }

  predicate IsUnder(address: Address, prefix: Address) {
    match StripPrefix(address.text, prefix.text)
    case None => false
    case Some(rest) => rest == "" || rest[0] == '/'
  }

  /** An address as the sequence of its typed segments and its subject. */
  function Items(address: Address): seq<Item> {
    seq(|address.segments|, i requires 0 <= i < |address.segments| => Typed(address.segments[i])) +
    if address.of.Some? then [Subject(address.of.value)] else []
  }

  lemma PartsAreItemTexts(address: Address)
    ensures var parts := Parts(address.segments, address.of);
            |parts| == |Items(address)| && forall i | 0 <= i < |parts| :: parts[i] == ItemText(Items(address)[i])
  {
  }

  lemma {:induction false} SplitAppend(a: string, b: string)
    ensures Split(a + "/" + b, '/') == Split(a, '/') + Split(b, '/')
    decreases |a|
  {
    match SplitOnce(a, '/')
    case None => SplitOnceOf(a, '/', b);
    case Some((head, tail)) =>
      assert a + "/" + b == head + "/" + (tail + "/" + b);
      SplitOnceOf(head, '/', tail + "/" + b);
      SplitAppend(tail, b);
      assert [head] + (Split(tail, '/') + Split(b, '/')) == [head] + Split(tail, '/') + Split(b, '/');
  }

  /** Equal parts come from equal items, so a prefix of the parts is a prefix of the items. */
  lemma PartsPrefixIsItemsPrefix(prefix: Address, address: Address)
    ensures Parts(prefix.segments, prefix.of) <= Parts(address.segments, address.of) <==>
            Items(prefix) <= Items(address)
  {
    PartsAreItemTexts(prefix);
    PartsAreItemTexts(address);
    var p, x := Items(prefix), Items(address);
    if Parts(prefix.segments, prefix.of) <= Parts(address.segments, address.of) {
      forall i | 0 <= i < |p|
        ensures p[i] == x[i]
      {
        assert Parts(prefix.segments, prefix.of)[i] == Parts(address.segments, address.of)[i];
        ParseItemOfText(p[i]);
        ParseItemOfText(x[i]);
      }
    }
  }

  /** Textual containment on segment boundaries, of any two texts, is containment of their parts. */
  lemma TextPrefixIsPartsPrefix(text: string, prefix: string)
    ensures text == prefix || prefix + "/" <= text <==> Split(prefix, '/') <= Split(text, '/')
  {
    if prefix + "/" <= text {
      var rest := text[|prefix| + 1..];
      assert text == prefix + "/" + rest;
      SplitAppend(prefix, rest);
    }
    if Split(prefix, '/') <= Split(text, '/') {
      JoinPrefix(Split(prefix, '/'), Split(text, '/'));
      JoinOfSplit(prefix, '/');
      JoinOfSplit(text, '/');
    }
  }

  lemma JoinPrefix(p: seq<string>, x: seq<string>)
    requires |p| >= 1 && p <= x
    ensures Join(x, '/') == Join(p, '/') || Join(p, '/') + "/" <= Join(x, '/')
  {
    var rest := x[|p|..];
    assert x == p + rest;
    if rest == [] {
      assert x == p;
    } else {
      JoinAppend(p, rest, '/');
    }
  }

  lemma UnderIsPartsPrefix(lower: string -> string, address: Address, prefix: Address)
    requires Finished(lower, address) && Finished(lower, prefix)
    ensures IsUnder(address, prefix) <==> Parts(prefix.segments, prefix.of) <= Parts(address.segments, address.of)
  {
    SplitOfRender(prefix.segments, prefix.of);
    SplitOfRender(address.segments, address.of);
    TextPrefixIsPartsPrefix(address.text, prefix.text);
    UnderByText(address.text, prefix.text);
  }

  lemma LastItem(address: Address)
    requires address.segments != []
    ensures var items := Items(address); items != [] && (items[|items| - 1].Subject? <==> address.of.Some?)
  {
  }

  lemma SameItems(a: Address, b: Address)
    requires a.segments != [] && b.segments != [] && Items(a) == Items(b)
    ensures a.segments == b.segments && a.of == b.of
  {
    LastItem(a);
    LastItem(b);
    assert forall i | 0 <= i < |a.segments| ::
             Items(a)[i] == Typed(a.segments[i]) && Items(b)[i] == Typed(b.segments[i]);
    assert a.segments == b.segments;
    if a.of.Some? {
      assert Items(a)[|a.segments|] == Subject(a.of.value);
    }
  }

  /** The text determines the segments and the subject, admitted or not. */
  lemma RenderInjective(a: seq<Segment>, x: Option<string>, b: seq<Segment>, y: Option<string>)
    requires a != [] && b != [] && Render(a, x) == Render(b, y)
    ensures a == b && x == y
  {
    var left, right := Address(a, x, ""), Address(b, y, "");
    SplitOfRender(a, x);
    SplitOfRender(b, y);
    PartsPrefixIsItemsPrefix(left, right);
    PartsPrefixIsItemsPrefix(right, left);
    SameItems(left, right);
  }

  lemma NothingFollowsArtifact(lower: string -> string, segments: seq<Segment>)
    requires Admitted(lower, segments) && |segments| > 1
    ensures Admitted(lower, segments[..|segments| - 1])
    ensures LastKind(segments[..|segments| - 1]) != Some(Artifact)
  {
    hide ValueAdmitted, GithubRepositoryAdmitted, NormaliseUsage;
  }

  /** The parent of an address is the finished address one segment up; an artifact's is its role. */
  lemma ParentIsOneUp(lower: string -> string, address: Address)
    requires WellFormed(lower, address) && address.segments != []
    ensures Parent(address) == if |address.segments| == 1 then None
            else Some(Plain(address.segments[..|address.segments| - 1]))
    ensures |address.segments| > 1 ==> Finished(lower, Plain(address.segments[..|address.segments| - 1]))
  {
    var segments := address.segments;
    if |segments| > 1 {
      var before, last := segments[..|segments| - 1], segments[|segments| - 1];
      NothingFollowsArtifact(lower, segments);
      assert segments == before + [last];
      CutSegment(before, last);
      if address.of.Some? {
        CutSubject(segments, address.of.value);
        assert CutLast(address.text, 2) == CutLast(Render(segments, None), 1);
      }
      assert CutLast(Render(segments, None), 1) == CutLast(Render(before, None), 0);
    }
  }

  lemma CutSegment(before: seq<Segment>, last: Segment)
    requires before != []
    ensures RSplitOnce(Render(before + [last], None), '/') ==
              Some((Render(before, None), SegmentText(last.kind, last.value)))
  {
    var part := SegmentText(last.kind, last.value);
    PartsSnoc(before, last);
    RenderSnoc(before, None, part, Parts(before + [last], None));
    SegmentTextChars(last.kind, last.value);
    RSplitOnceOf(Render(before, None), '/', part);
  }

  lemma CutSubject(segments: seq<Segment>, subject: string)
    requires segments != []
    ensures RSplitOnce(Render(segments, Some(subject)), '/') == Some((Render(segments, None), OfText(subject)))
  {
    hide RSplitOnce, OfText, Join, SegmentTexts;
    var parts := Parts(segments, Some(subject));
    assert parts == Parts(segments, None) + [OfText(subject)];
    RenderSnoc(segments, None, OfText(subject), parts);
    OfTextChars(subject);
    RSplitOnceOf(Render(segments, None), '/', OfText(subject));
  }

  /** `ancestor` is `address` or one of the addresses its parents lead to. */
  predicate InParentChain(address: Address, ancestor: Address)
    decreases |address.segments|
  {
    address == ancestor || (Parent(address).Some? && InParentChain(Parent(address).value, ancestor))
  }

  lemma {:induction false} ChainIsItemsPrefix(lower: string -> string, address: Address, ancestor: Address)
    requires Finished(lower, address) && Finished(lower, ancestor)
    ensures InParentChain(address, ancestor) <==> Items(ancestor) <= Items(address)
    decreases |address.segments|
  {
    ParentIsOneUp(lower, address);
    ItemsPrefixCases(lower, address, ancestor);
    if |address.segments| > 1 {
      ChainIsItemsPrefix(lower, Plain(address.segments[..|address.segments| - 1]), ancestor);
    }
  }

  lemma ItemsPrefixCases(lower: string -> string, address: Address, ancestor: Address)
    requires Finished(lower, address) && Finished(lower, ancestor)
    ensures Items(ancestor) <= Items(address) <==>
            || address == ancestor
            || (|address.segments| > 1 && Items(ancestor) <= Items(Plain(address.segments[..|address.segments| - 1])))
  {
    hide Admitted, Render;
    var x, p := Items(address), Items(ancestor);
    var before := address.segments[..|address.segments| - 1];
    assert Items(Plain(before)) == x[..|before|];
    if p < x {
      ShorterIsUnderParent(lower, address, ancestor);
    } else if p == x {
      SameItems(address, ancestor);
    }
  }

  /** A proper prefix that is itself finished stops before an artifact segment, so the parent still has it. */
  lemma ShorterIsUnderParent(lower: string -> string, address: Address, ancestor: Address)
    requires Finished(lower, address) && Finished(lower, ancestor)
    requires Items(ancestor) < Items(address)
    ensures |Items(ancestor)| <= |address.segments| - 1
  {
    hide Admitted, Render;
    var x, p := Items(address), Items(ancestor);
    LastItem(ancestor);
    assert p[|p| - 1] == x[|p| - 1] == Typed(address.segments[|p| - 1]);
    assert p[|p| - 1] == Typed(ancestor.segments[|p| - 1]);
  }

  // ---- Byte ranges ----

  /** Byte-wise lexicographic order, in which canonical text is stored and addresses are ordered. */
  predicate Less(a: seq<Byte>, b: seq<Byte>) {
    if b == [] then false
    else if a == [] then true
    else a[0] < b[0] || (a[0] == b[0] && Less(a[1..], b[1..]))
  }

  predicate InRange(text: string, low: string, high: string) {
    !Less(Utf8.Encode(text), Utf8.Encode(low)) && Less(Utf8.Encode(text), Utf8.Encode(high))
  }

  /** Bounds selecting exactly the addresses strictly under this one. */
  function DescendantBounds(address: Address): (string, string) {
    (address.text + "/", address.text + "0")
  }

  /** `0` is the byte after `/`, so the range `[p/, p0)` is exactly what starts with `p/`. */
  lemma {:induction false} RangeIsPrefix(t: seq<Byte>, p: seq<Byte>)
    ensures !Less(t, p + [0x2F]) && Less(t, p + [0x30]) <==> p + [0x2F] <= t
  {
    if p == [] {
      assert p + [0x2F] == [0x2F] && p + [0x30] == [0x30];
      assert [0x2F] <= t <==> t != [] && t[0] == 0x2F;
    } else {
      assert (p + [0x2F])[1..] == p[1..] + [0x2F] && (p + [0x30])[1..] == p[1..] + [0x30];
      if t != [] {
        RangeIsPrefix(t[1..], p[1..]);
        assert p + [0x2F] == [p[0]] + (p[1..] + [0x2F]);
        assert t == [t[0]] + t[1..];
        assert p + [0x2F] <= t <==> t[0] == p[0] && p[1..] + [0x2F] <= t[1..];
      }
    }
  }

  lemma TextIsAscii(lower: string -> string, address: Address)
    requires Finished(lower, address)
    ensures IsAscii(address.text)
    ensures forall c | c in address.text :: IsTextChar(c) || c == '/'
  {
    PartsChars(address.segments, address.of);
    JoinChars(Parts(address.segments, address.of));
    forall i | 0 <= i < |address.text|
      ensures address.text[i] as int < 0x80
    {
      assert address.text[i] in address.text;
    }
  }

  lemma {:induction false} JoinChars(parts: seq<string>)
    requires forall i | 0 <= i < |parts| :: All(parts[i], IsTextChar)
    ensures forall c | c in Join(parts, '/') :: IsTextChar(c) || c == '/'
  {
    if |parts| == 1 {
      assert All(parts[0], IsTextChar);
    } else if |parts| > 1 {
      assert All(parts[0], IsTextChar);
      JoinChars(parts[1..]);
    }
  }

  lemma AsciiPrefix(a: string, b: string)
    requires IsAscii(a) && IsAscii(b)
    ensures Utf8.Encode(a) <= Utf8.Encode(b) <==> a <= b
  {
    AsciiBytes(a);
    AsciiBytes(b);
    var x, y := Utf8.Encode(a), Utf8.Encode(b);
    if a <= b {
      assert forall i | 0 <= i < |a| :: x[i] == y[i];
    }
    if x <= y {
      assert forall i | 0 <= i < |a| :: x[i] == y[i] && a[i] as int == b[i] as int;
    }
  }

  lemma RangeIsUnder(lower: string -> string, address: Address, prefix: Address)
    requires Finished(lower, address) && Finished(lower, prefix)
    ensures var (low, high) := DescendantBounds(prefix); InRange(address.text, low, high) <==>
            prefix.text + "/" <= address.text
  {
    TextIsAscii(lower, address);
    TextIsAscii(lower, prefix);
    var p := Utf8.Encode(prefix.text);
    EncodeAppend(prefix.text, "/");
    EncodeAppend(prefix.text, "0");
    assert Utf8.Encode("/") == [0x2F] by { AsciiBytes("/"); }
    assert Utf8.Encode("0") == [0x30] by { AsciiBytes("0"); }
    RangeIsPrefix(Utf8.Encode(address.text), p);
    AsciiPrefix(prefix.text + "/", address.text);
  }

  /**
   The four readings of containment agree on every two finished addresses: the text test on segment
   boundaries, the prefix of segments and subject, the parent chain, and the stored range query.
   */
  lemma ContainmentAgrees(lower: string -> string, address: Address, prefix: Address)
    requires Finished(lower, address) && Finished(lower, prefix)
    ensures IsUnder(address, prefix) <==> Items(prefix) <= Items(address)
    ensures IsUnder(address, prefix) <==> InParentChain(address, prefix)
    ensures var (low, high) := DescendantBounds(prefix);
            IsUnder(address, prefix) <==> address.text == prefix.text || InRange(address.text, low, high)
  {
    UnderIsPartsPrefix(lower, address, prefix);
    PartsPrefixIsItemsPrefix(prefix, address);
    ChainIsItemsPrefix(lower, address, prefix);
    RangeIsUnder(lower, address, prefix);
    UnderByText(address.text, prefix.text);
  }

  lemma UnderByText(text: string, prefix: string)
    ensures (prefix <= text && (text[|prefix|..] == "" || text[|prefix|..][0] == '/')) <==>
            text == prefix || prefix + "/" <= text
  {
    if prefix <= text && |prefix| < |text| {
      assert text == prefix + text[|prefix|..];
      assert text[|prefix|..][0] == text[|prefix|];
      assert prefix + "/" <= text <==> text[|prefix|] == '/';
    }
    if prefix + "/" <= text {
      assert text[|prefix|] == '/';
      assert prefix == text[..|prefix|];
    }
  }
}
