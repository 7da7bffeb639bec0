/** The pages of the display and the rotation configuration (internal/ui/pages.go:12-107). */
module Rotation {
  import opened Wrappers
  import opened Text

  const SECOND: int := 1_000_000_000
  const MIN_DWELL_SECONDS := 5
  const MAX_DWELL_SECONDS := 300

  datatype Page = Coding | Api | HomeLab | Services | System

  const ALL_PAGES: seq<Page> := [Coding, Api, HomeLab, Services, System]

  datatype RotationConfig = RotationConfig(order: seq<Page>, dwell: map<Page, int>) {
    // What the parser can produce: the five pages in some order, each with an allowed dwell.
    ghost predicate Valid() {
      && |order| == 5
      && (forall i, j :: 0 <= i < j < 5 ==> order[i] != order[j])
      && (forall p: Page :: p in dwell && AllowedDwell(dwell[p]))
    }
  }

  // A whole number of seconds from 5 to 300.
  predicate AllowedDwell(dwell: int) {
    MIN_DWELL_SECONDS * SECOND <= dwell <= MAX_DWELL_SECONDS * SECOND && dwell % SECOND == 0
  }

  function PageName(p: Page): string {
    match p
    case Coding => "CODING"
    case Api => "API"
    case HomeLab => "HOMELAB"
    case Services => "SERVICES"
    case System => "SYSTEM"
  }

  function PageNamed(name: string): Option<Page> {
    if name == "CODING" then Some(Coding)
    else if name == "API" then Some(Api)
    else if name == "HOMELAB" then Some(HomeLab)
    else if name == "SERVICES" then Some(Services)
    else if name == "SYSTEM" then Some(System)
    else None
  }

  function ParsePage(text: string): Option<Page> {
    PageNamed(ToUpper(TrimSpace(text)))
  }

  // Canonical names are upper case and hold neither space nor separator.
  lemma PageNameShape(p: Page)
    ensures PageName(p) != []
    ensures forall i :: 0 <= i < |PageName(p)| ==> 'A' <= PageName(p)[i] <= 'Z'
    ensures PageNamed(PageName(p)) == Some(p)
  {
  }

  lemma PageNameParses(p: Page)
    ensures ',' !in PageName(p) && ':' !in PageName(p)
    ensures ParsePage(PageName(p)) == Some(p)
  {
    PageNameShape(p);
    TrimSpaceIdentity(PageName(p));
    ToUpperIdentity(PageName(p));
  }

  // A page is named in upper or lower case, with space around it or not.
  lemma PaddedPage(before: string, name: string, after: string, p: Page)
    requires AllSpace(before) && AllSpace(after) && ToUpper(name) == PageName(p)
    ensures ParsePage(before + name + after) == Some(p)
    ensures ':' !in before + name + after
  {
    PageNameShape(p);
    assert forall i :: 0 <= i < |name| ==> 'A' <= ToUpper(name)[i] <= 'Z';
    TrimPadded(before, name, after);
  }

  // ----- ParseRotationConfig -----

  // The pages named by the texts, if each names one and none repeats.
  function ParseOrder(parts: seq<string>, seen: seq<Page>): Option<seq<Page>> {
    if parts == [] then Some(seen)
    else
      match ParsePage(parts[0])
      case None => None
      case Some(page) => if page in seen then None else ParseOrder(parts[1..], seen + [page])
  }

  function ParseDwellEntry(raw: string): Option<(Page, int)> {
    match Cut(raw, ':')
    case None => None
    case Some((name, secondsText)) =>
      match ParsePage(name)
      case None => None
      case Some(page) =>
        match ParseInt64(TrimSpace(secondsText))
        case None => None
        case Some(seconds) =>
          if MIN_DWELL_SECONDS <= seconds <= MAX_DWELL_SECONDS then Some((page, seconds * SECOND)) else None
  }

  function ParseDwell(parts: seq<string>, seen: map<Page, int>): Option<map<Page, int>> {
    if parts == [] then Some(seen)
    else
      match ParseDwellEntry(parts[0])
      case None => None
      case Some((page, dwell)) => if page in seen then None else ParseDwell(parts[1..], seen[page := dwell])
  }

  function ParseRotationSpec(orderText: string, dwellText: string): Option<RotationConfig> {
    var orderParts, dwellParts := Split(orderText, ','), Split(dwellText, ',');
    if |orderParts| != 5 || |dwellParts| != 5 then None
    else
      match ParseOrder(orderParts, [])
      case None => None
      case Some(order) =>
        match ParseDwell(dwellParts, map[])
        case None => None
        case Some(dwell) => Some(RotationConfig(order, dwell))
  }

  method ParseRotationConfig(orderText: string, dwellText: string) returns (r: Option<RotationConfig>)
    ensures r == ParseRotationSpec(orderText, dwellText)
  {
    var orderParts := Split(orderText, ',');
    if |orderParts| != |ALL_PAGES| {
      return None;
    }
    var order: seq<Page> := [];
    for i := 0 to |orderParts|
      invariant ParseOrder(orderParts[i..], order) == ParseOrder(orderParts, [])
    {
      assert orderParts[i..][1..] == orderParts[i + 1..];
      var page := ParsePage(orderParts[i]);
      if page.None? || page.value in order {
        return None;
      }
      order := order + [page.value];
    }
    var parts := Split(dwellText, ',');
    if |parts| != |ALL_PAGES| {
      return None;
    }
    var dwell: map<Page, int> := map[];
    for i := 0 to |parts|
      invariant ParseDwell(parts[i..], dwell) == ParseDwell(parts, map[])
    {
      assert parts[i..][1..] == parts[i + 1..];
      var entry := ParseDwellEntry(parts[i]);
      if entry.None? || entry.value.0 in dwell {
        return None;
      }
      dwell := dwell[entry.value.0 := entry.value.1];
    }
    return Some(RotationConfig(order, dwell));
  }

  // ----- Strings -----

  function OrderNames(order: seq<Page>): seq<string> {
    seq(|order|, i requires 0 <= i < |order| => PageName(order[i]))
  }

  function DwellEntry(page: Page, dwell: int): string {
    PageName(page) + ":" + FormatInt(dwell / SECOND)
  }

  function DwellEntries(order: seq<Page>, dwell: map<Page, int>): seq<string>
    requires forall p <- order :: p in dwell
  {
    seq(|order|, i requires 0 <= i < |order| => DwellEntry(order[i], dwell[order[i]]))
  }

  function StringsSpec(c: RotationConfig): (string, string)
    requires forall p <- c.order :: p in c.dwell
  {
    (Join(OrderNames(c.order), ','), Join(DwellEntries(c.order, c.dwell), ','))
  }

  lemma TextsAre(order: seq<Page>, dwell: map<Page, int>, names: seq<string>, entries: seq<string>)
    requires forall p <- order :: p in dwell
    requires |names| == |entries| == |order|
    requires forall k :: 0 <= k < |order| ==> names[k] == PageName(order[k])
    requires forall k :: 0 <= k < |order| ==> entries[k] == DwellEntry(order[k], dwell[order[k]])
    ensures names == OrderNames(order) && entries == DwellEntries(order, dwell)
  {
  }

  method Strings(c: RotationConfig) returns (orderText: string, dwellText: string)
    requires forall p <- c.order :: p in c.dwell
    ensures (orderText, dwellText) == StringsSpec(c)
  {
    var order := seq(|c.order|, _ => "");
    var dwell := seq(|c.order|, _ => "");
    for i := 0 to |c.order|
      invariant |order| == |dwell| == |c.order|
      invariant forall k :: 0 <= k < i ==> order[k] == PageName(c.order[k])
      invariant forall k :: 0 <= k < i ==> dwell[k] == DwellEntry(c.order[k], c.dwell[c.order[k]])
    {
      var page := c.order[i];
      order := order[i := PageName(page)];
      dwell := dwell[i := DwellEntry(page, c.dwell[page])];
    }
    TextsAre(c.order, c.dwell, order, dwell);
    return Join(order, ','), Join(dwell, ',');
  }

  // ----- what the parser can produce -----

  lemma {:induction false} ParsedOrderShape(parts: seq<string>, seen: seq<Page>)
    requires ParseOrder(parts, seen).Some?
    requires forall i, j :: 0 <= i < j < |seen| ==> seen[i] != seen[j]
    ensures
      var order := ParseOrder(parts, seen).value;
      && |order| == |seen| + |parts|
      && (forall i, j :: 0 <= i < j < |order| ==> order[i] != order[j])
  {
    if parts != [] {
      ParsedOrderShape(parts[1..], seen + [ParsePage(parts[0]).value]);
    }
  }

  lemma ParsedEntryAllowed(raw: string)
    requires ParseDwellEntry(raw).Some?
    ensures AllowedDwell(ParseDwellEntry(raw).value.1)
  {
  }

  lemma {:induction false} ParsedDwellShape(parts: seq<string>, seen: map<Page, int>)
    requires ParseDwell(parts, seen).Some?
    requires forall p :: p in seen ==> AllowedDwell(seen[p])
    ensures
      var dwell := ParseDwell(parts, seen).value;
      && |dwell| == |seen| + |parts|
      && (forall p :: p in dwell ==> AllowedDwell(dwell[p]))
  {
    if parts != [] {
      var entry := ParseDwellEntry(parts[0]).value;
      ParsedEntryAllowed(parts[0]);
      ParsedDwellShape(parts[1..], seen[entry.0 := entry.1]);
    }
  }

  lemma FivePagesAreAll(pages: set<Page>)
    requires |pages| == 5
    ensures forall p: Page :: p in pages
  {
    var all := {Coding, Api, HomeLab, Services, System};
    assert forall p: Page :: p in all by {
      forall p: Page
        ensures p in all
      {
        match p
        case Coding =>
        case Api =>
        case HomeLab =>
        case Services =>
        case System =>
      }
    }
    assert pages <= all;
    if p :| p in all && p !in pages {
      SubsetSize(pages, all - {p});
    }
  }

  lemma {:induction false} SubsetSize<T>(a: set<T>, b: set<T>)
    requires a <= b
    ensures |a| <= |b|
  {
    if x :| x in a {
      SubsetSize(a - {x}, b - {x});
    }
  }

  // Every configuration the parser accepts is the five pages with allowed dwells.
  lemma ParsedConfigValid(orderText: string, dwellText: string)
    requires ParseRotationSpec(orderText, dwellText).Some?
    ensures ParseRotationSpec(orderText, dwellText).value.Valid()
  {
    ParsedOrderShape(Split(orderText, ','), []);
    ParsedDwellShape(Split(dwellText, ','), map[]);
    var c := ParseRotationSpec(orderText, dwellText).value;
    assert |c.dwell.Keys| == |c.dwell|;
    FivePagesAreAll(c.dwell.Keys);
    assert forall p: Page :: p in c.dwell.Keys;
  }

  // ----- the round trip -----

  lemma {:induction false} OrderRoundTrip(order: seq<Page>, seen: seq<Page>)
    requires forall i, j :: 0 <= i < j < |seen + order| ==> (seen + order)[i] != (seen + order)[j]
    ensures ParseOrder(OrderNames(order), seen) == Some(seen + order)
  {
    if order == [] {
      assert seen + order == seen;
    } else {
      PageNameParses(order[0]);
      assert (seen + [order[0]]) + order[1..] == seen + order;
      assert order[0] !in seen by {
        assert (seen + order)[|seen|] == order[0];
        assert forall i :: 0 <= i < |seen| ==> (seen + order)[i] == seen[i];
      }
      OrderRoundTrip(order[1..], seen + [order[0]]);
      assert OrderNames(order)[1..] == OrderNames(order[1..]);
    }
  }

  lemma DwellEntryRoundTrip(page: Page, dwell: int)
    requires AllowedDwell(dwell)
    ensures ParseDwellEntry(DwellEntry(page, dwell)) == Some((page, dwell))
    ensures ',' !in DwellEntry(page, dwell)
  {
    var seconds := dwell / SECOND;
    var text := FormatInt(seconds);
    PageNameParses(page);
    CutAtFirst(PageName(page), text, ':');
    assert PageName(page) + ":" + text == PageName(page) + [':'] + text;
    assert dwell == seconds * SECOND;
    assert AllDigits(text);
    TrimSpaceIdentity(text);
    ParseFormatInt(seconds);
  }

  // So is a dwell, as a number of seconds from 5 to 300, and no other number is taken.
  lemma PaddedEntry(before: string, name: string, after: string, p: Page, left: string, seconds: int, right: string)
    requires AllSpace(before) && AllSpace(after) && ToUpper(name) == PageName(p)
    requires AllSpace(left) && AllSpace(right) && IsInt64(seconds)
    ensures ParseDwellEntry(before + name + after + ":" + (left + FormatInt(seconds) + right))
            == if 5 <= seconds <= 300 then Some((p, seconds * SECOND)) else None
  {
    var page, digits := before + name + after, left + FormatInt(seconds) + right;
    PaddedPage(before, name, after, p);
    CutAtFirst(page, digits, ':');
    assert page + [':'] + digits == page + ":" + digits;
    TrimPadded(left, FormatInt(seconds), right) by {
      assert FormatInt(seconds)[0] == '-' || IsDigit(FormatInt(seconds)[0]);
    }
    ParseFormatInt(seconds);
  }

  function Restricted(order: seq<Page>, dwell: map<Page, int>): map<Page, int>
    requires forall p <- order :: p in dwell
  {
    map p | p in order :: dwell[p]
  }

  lemma RestrictedStep(order: seq<Page>, dwell: map<Page, int>, seen: map<Page, int>)
    requires order != [] && forall p <- order :: p in dwell
    ensures seen[order[0] := dwell[order[0]]] + Restricted(order[1..], dwell) == seen + Restricted(order, dwell)
  {
    assert order == [order[0]] + order[1..];
  }

  lemma {:induction false} DwellRoundTrip(order: seq<Page>, dwell: map<Page, int>, seen: map<Page, int>)
    requires forall i, j :: 0 <= i < j < |order| ==> order[i] != order[j]
    requires forall p <- order :: p in dwell && p !in seen && AllowedDwell(dwell[p])
    ensures ParseDwell(DwellEntries(order, dwell), seen) == Some(seen + Restricted(order, dwell))
  {
    var entries := DwellEntries(order, dwell);
    if order == [] {
      assert seen + Restricted(order, dwell) == seen;
    } else {
      var p0 := order[0];
      DwellEntryRoundTrip(p0, dwell[p0]);
      assert entries[1..] == DwellEntries(order[1..], dwell);
      DwellRoundTrip(order[1..], dwell, seen[p0 := dwell[p0]]);
      RestrictedStep(order, dwell, seen);
    }
  }

  lemma OrderNamesPlain(order: seq<Page>)
    ensures forall i :: 0 <= i < |order| ==> ',' !in OrderNames(order)[i]
  {
    forall i | 0 <= i < |order|
      ensures ',' !in OrderNames(order)[i]
    {
      PageNameParses(order[i]);
    }
  }

  lemma DwellEntriesPlain(order: seq<Page>, dwell: map<Page, int>)
    requires forall p <- order :: p in dwell && AllowedDwell(dwell[p])
    ensures forall i :: 0 <= i < |order| ==> ',' !in DwellEntries(order, dwell)[i]
  {
    forall i | 0 <= i < |order|
      ensures ',' !in DwellEntries(order, dwell)[i]
    {
      DwellEntryRoundTrip(order[i], dwell[order[i]]);
    }
  }

  lemma {:induction false} DistinctIsSet(order: seq<Page>)
    requires forall i, j :: 0 <= i < j < |order| ==> order[i] != order[j]
    ensures |set p | p in order| == |order|
  {
    if order != [] {
      var n := |order| - 1;
      DistinctIsSet(order[..n]);
      assert (set p | p in order) == (set p | p in order[..n]) + {order[n]};
    }
  }

  lemma FiveDistinctAreAll(order: seq<Page>)
    requires |order| == 5 && forall i, j :: 0 <= i < j < 5 ==> order[i] != order[j]
    ensures forall p: Page :: p in order
  {
    var pages := set p | p in order;
    DistinctIsSet(order);
    FivePagesAreAll(pages);
    forall p: Page
      ensures p in order
    {
      assert p in pages;
    }
  }

  lemma OrderTextRoundTrip(c: RotationConfig)
    requires c.Valid()
    ensures ParseOrder(Split(StringsSpec(c).0, ','), []) == Some(c.order)
    ensures |Split(StringsSpec(c).0, ',')| == 5
  {
    OrderNamesPlain(c.order);
    SplitJoin(OrderNames(c.order), ',');
    assert [] + c.order == c.order;
    OrderRoundTrip(c.order, []);
  }

  lemma FullRestriction(order: seq<Page>, dwell: map<Page, int>)
    requires forall p: Page :: p in order && p in dwell
    ensures map[] + Restricted(order, dwell) == dwell
  {
  }

  lemma DwellTextRoundTrip(order: seq<Page>, dwell: map<Page, int>)
    requires |order| == 5 && forall i, j :: 0 <= i < j < |order| ==> order[i] != order[j]
    requires forall p: Page :: p in dwell && AllowedDwell(dwell[p])
    ensures
      var parts := Split(Join(DwellEntries(order, dwell), ','), ',');
      |parts| == 5 && ParseDwell(parts, map[]) == Some(dwell)
  {
    var entries := DwellEntries(order, dwell);
    assert Split(Join(entries, ','), ',') == entries by {
      DwellEntriesPlain(order, dwell);
      SplitJoin(entries, ',');
    }
    DwellRoundTrip(order, dwell, map[]);
    assert map[] + Restricted(order, dwell) == dwell by {
      FiveDistinctAreAll(order);
      FullRestriction(order, dwell);
    }
  }

  // Writing a configuration and reading it back changes nothing.
  lemma RotationRoundTrip(c: RotationConfig)
    requires c.Valid()
    ensures ParseRotationSpec(StringsSpec(c).0, StringsSpec(c).1) == Some(c)
  {
    OrderTextRoundTrip(c);
    DwellTextRoundTrip(c.order, c.dwell);
  }

  // So reading, writing and reading again is the same as reading once.
  lemma ParsedRotationRoundTrips(orderText: string, dwellText: string)
    requires ParseRotationSpec(orderText, dwellText).Some?
    ensures
      var c := ParseRotationSpec(orderText, dwellText).value;
      && c.Valid()
      && ParseRotationSpec(StringsSpec(c).0, StringsSpec(c).1) == Some(c)
  {
    ParsedConfigValid(orderText, dwellText);
    RotationRoundTrip(ParseRotationSpec(orderText, dwellText).value);
  }
}
