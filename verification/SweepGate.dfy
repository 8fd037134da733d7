/**
 The forbidden-term gate (tools/forbidden_terms/sweep.py): the retired terms found in
 the files read, and the verdict on them against what the migration ledger excuses.
 */
module SweepGate {
  import opened Wrappers
  import opened Tables
  import opened Characters
  import opened SweepPlan
  import opened Sweep
  import JsonPointer

  /** An area and a retired term. */
  type Site = (string, string)

  // ----- where a term occurs -----------------------------------------------------------------

  predicate IdentifierChar(c: char) {
    'A' <= c <= 'Z' || 'a' <= c <= 'z' || '0' <= c <= '9' || c == '_'
  }

  /** The token as it is spelled, with no identifier character on either side. */
  predicate OccursAt(text: string, term: string, i: nat) {
    var end := i + |term|;
    && end <= |text| && text[i..end] == term
    && (i > 0 ==> !IdentifierChar(text[i - 1]))
    && (end < |text| ==> !IdentifierChar(text[end]))
  }

  predicate Occurs(text: string, term: string) {
    exists i: nat :: i <= |text| && OccursAt(text, term, i)
  }

  /** What reading a tracked file gives. */
  datatype Content = Text(text: string) | Undecodable | NotOnDisk | Unreadable

  predicate Holds(content: Content, term: string) {
    content.Text? && Occurs(content.text, term)
  }

  /** The files of one site, in the order they are read. */
  function FilesOf(swept: seq<string>, plan: Plan, read: string -> Content, site: Site): seq<string> {
    if swept == [] then []
    else
      var n := |swept| - 1;
      FilesOf(swept[..n], plan, read, site) +
      if AreaOf(plan, swept[n]) == site.0 && Holds(read(swept[n]), site.1) then [swept[n]] else []
  }

  lemma {:induction false} FilesAre(swept: seq<string>, plan: Plan, read: string -> Content, site: Site)
    ensures forall path :: path in FilesOf(swept, plan, read, site) <==>
                             path in swept && AreaOf(plan, path) == site.0 && Holds(read(path), site.1)
  {
    if swept == [] {
    } else {
      var n := |swept| - 1;
      FilesAre(swept[..n], plan, read, site);
      assert swept == swept[..n] + [swept[n]];
    }
  }

  predicate ReadFault(path: string, content: Content, fault: Fault) {
    match content
    case Text(_) => false
    case NotOnDisk => fault == TreeUnreadable(path)
    case _ => fault == FileUndecodable(path)
  }

  type Findings = map<Site, seq<string>>

  ghost predicate IsFound(found: Findings, swept: seq<string>, plan: Plan, terms: set<string>, read: string -> Content) {
    forall site: Site ::
      && (site in found <==> site.1 in terms && FilesOf(swept, plan, read, site) != [])
      && (site in found ==> found[site] == FilesOf(swept, plan, read, site))
  }

  /** Half-way through the terms of one file. */
  ghost predicate IsPartlyFound(found: Findings, swept: seq<string>, k: nat, plan: Plan, terms: set<string>,
                                done: set<string>, read: string -> Content)
    requires k < |swept|
  {
    forall site: Site ::
      var files := FilesOf(if site.1 in done then swept[..k + 1] else swept[..k], plan, read, site);
      && (site in found <==> site.1 in terms && files != [])
      && (site in found ==> found[site] == files)
  }

  lemma FilesStep(swept: seq<string>, k: nat, plan: Plan, read: string -> Content, site: Site)
    requires k < |swept|
    ensures FilesOf(swept[..k + 1], plan, read, site) ==
            FilesOf(swept[..k], plan, read, site) +
            if AreaOf(plan, swept[k]) == site.0 && Holds(read(swept[k]), site.1) then [swept[k]] else []
  {
    assert swept[..k + 1][..k] == swept[..k];
  }

  function Record(found: Findings, site: Site, path: string): Findings {
    found[site := (if site in found then found[site] else []) + [path]]
  }

  lemma PartStep(found: Findings, swept: seq<string>, k: nat, plan: Plan, terms: set<string>,
                 done: set<string>, term: string, read: string -> Content)
    requires k < |swept| && term in terms && term !in done
    requires IsPartlyFound(found, swept, k, plan, terms, done, read)
    ensures if Holds(read(swept[k]), term)
            then IsPartlyFound(Record(found, (AreaOf(plan, swept[k]), term), swept[k]), swept, k, plan, terms, done + {term}, read)
            else IsPartlyFound(found, swept, k, plan, terms, done + {term}, read)
  {
    forall site: Site | site.1 == term
      ensures FilesOf(swept[..k + 1], plan, read, site) ==
              FilesOf(swept[..k], plan, read, site) +
              if AreaOf(plan, swept[k]) == site.0 && Holds(read(swept[k]), site.1) then [swept[k]] else []
    {
      FilesStep(swept, k, plan, read, site);
    }
  }

  lemma PartEnds(found: Findings, swept: seq<string>, k: nat, plan: Plan, terms: set<string>, read: string -> Content)
    requires k < |swept| && IsPartlyFound(found, swept, k, plan, terms, terms, read)
    ensures IsFound(found, swept[..k + 1], plan, terms, read)
  {
  }

  lemma UnreadFindsNothing(found: Findings, swept: seq<string>, k: nat, plan: Plan, terms: set<string>, read: string -> Content)
    requires k < |swept| && IsFound(found, swept[..k], plan, terms, read) && !read(swept[k]).Text?
    ensures IsFound(found, swept[..k + 1], plan, terms, read)
  {
    forall site: Site
      ensures FilesOf(swept[..k + 1], plan, read, site) == FilesOf(swept[..k], plan, read, site)
    {
      FilesStep(swept, k, plan, read, site);
    }
  }

  /** The terms of one file that was read. */
  method SearchFile(found: Findings, swept: seq<string>, k: nat, plan: Plan, terms: set<string>, read: string -> Content)
    returns (after: Findings)
    requires k < |swept| && read(swept[k]).Text? && IsFound(found, swept[..k], plan, terms, read)
    ensures IsFound(after, swept[..k + 1], plan, terms, read)
  {
    after := found;
    var area := FindArea(plan, swept[k]);
    var rest := terms;
    ghost var done: set<string> := {};
    while rest != {}
      invariant done + rest == terms && done !! rest
      invariant IsPartlyFound(after, swept, k, plan, terms, done, read)
    {
      var term :| term in rest;
      PartStep(after, swept, k, plan, terms, done, term, read);
      if Holds(read(swept[k]), term) {
        after := Record(after, (area, term), swept[k]);
      }
      rest, done := rest - {term}, done + {term};
    }
    assert done == terms;
    PartEnds(after, swept, k, plan, terms, read);
  }

  /** Every swept file is searched for every retired term, or is itself a fault. */
  method Search(swept: seq<string>, plan: Plan, terms: set<string>, read: string -> Content)
    returns (found: Findings, faults: seq<Fault>)
    ensures IsFound(found, swept, plan, terms, read)
    ensures forall fault :: fault in faults <==> exists k :: 0 <= k < |swept| && ReadFault(swept[k], read(swept[k]), fault)
  {
    found, faults := map[], [];
    for k := 0 to |swept|
      invariant IsFound(found, swept[..k], plan, terms, read)
      invariant forall fault :: fault in faults <==> exists i :: 0 <= i < k && ReadFault(swept[i], read(swept[i]), fault)
    {
      match read(swept[k]) {
        case Text(_) =>
          found := SearchFile(found, swept, k, plan, terms, read);
        case NotOnDisk =>
          UnreadFindsNothing(found, swept, k, plan, terms, read);
          faults := faults + [TreeUnreadable(swept[k])];
        case _ =>
          UnreadFindsNothing(found, swept, k, plan, terms, read);
          faults := faults + [FileUndecodable(swept[k])];
      }
    }
    assert swept[..|swept|] == swept;
  }

  datatype Result = Result(swept: seq<string>, excluded: Buckets, found: Findings, faults: seq<Fault>)

  ghost predicate RunFault(paths: seq<string>, plan: Plan, r: Result, read: string -> Content, fault: Fault) {
    || (exists k :: 0 <= k < |paths| && Overlap(plan, paths[k], fault))
    || AccountingFault(plan, r.excluded, fault)
    || VacuityFault(plan, r.swept, fault)
    || (exists k :: 0 <= k < |r.swept| && ReadFault(r.swept[k], read(r.swept[k]), fault))
  }

  method Run(paths: seq<string>, plan: Plan, terms: set<string>, read: string -> Content) returns (r: Result)
    ensures IsPartition(paths, plan, r.swept, r.excluded)
    ensures IsFound(r.found, r.swept, plan, terms, read)
    ensures forall fault :: fault in r.faults <==> RunFault(paths, plan, r, read, fault)
  {
    var swept, excluded, overlaps := Partition(paths, plan);
    var accounting := AccountingFaults(plan, excluded);
    var vacuity := VacuityFaults(plan, swept);
    var found, unread := Search(swept, plan, terms, read);
    r := Result(swept, excluded, found, overlaps + accounting + vacuity + unread);
  }

  // ----- ledger sites -----------------------------------------------------------------------------------

  function SiteOf(area: string, term: string): string {
    area + "::" + term
  }

  /** Where the first `::` is; the length when there is none. */
  function FirstSeparator(text: string): (n: nat)
    ensures n <= |text|
    ensures n < |text| ==> n + 2 <= |text| && text[n] == ':' && text[n + 1] == ':'
  {
    if |text| < 2 then |text|
    else if text[0] == ':' && text[1] == ':' then 0
    else 1 + FirstSeparator(text[1..])
  }

  function ParseSite(site: string): Option<Site> {
    var n := FirstSeparator(site);
    if n == |site| || n == 0 || n + 2 == |site| then None
    else Some((site[..n], site[n + 2..]))
  }

  ghost predicate SeparatorFree(area: string) {
    && (forall i, j :: 0 <= i < j < |area| && j == i + 1 ==> !(area[i] == ':' && area[j] == ':'))
    && (area != "" ==> area[|area| - 1] != ':')
  }

  /** What parses is a site, spelled as it was. */
  lemma ParsedSiteIsSpelled(site: string)
    ensures ParseSite(site).Some? ==> SiteOf(ParseSite(site).value.0, ParseSite(site).value.1) == site
  {
    var n := FirstSeparator(site);
    if ParseSite(site).Some? {
      assert site == site[..n] + "::" + site[n + 2..];
    }
  }

  lemma {:induction false} SeparatorAfter(area: string, term: string)
    ensures FirstSeparator(SiteOf(area, term)) == |area| <==> SeparatorFree(area)
    ensures FirstSeparator(SiteOf(area, term)) <= |area|
  {
    var site := SiteOf(area, term);
    if area != "" {
      assert site[1..] == SiteOf(area[1..], term);
      SeparatorAfter(area[1..], term);
      if |area| == 1 {
        assert site[1] == ':';
        assert SeparatorFree(area[1..]);
      } else {
        assert site[0] == area[0] && site[1] == area[1];
        SeparatorFreeTail(area);
      }
    }
  }

  lemma SeparatorFreeTail(area: string)
    requires |area| > 1
    ensures SeparatorFree(area) <==> SeparatorFree(area[1..]) && !(area[0] == ':' && area[1] == ':')
  {
    var tail := area[1..];
    assert forall i :: 0 <= i < |tail| ==> tail[i] == area[i + 1];
    if SeparatorFree(tail) && !(area[0] == ':' && area[1] == ':') {
      forall i, j | 0 <= i < j < |area| && j == i + 1
        ensures !(area[i] == ':' && area[j] == ':')
      {
        if i > 0 {
          assert tail[i - 1] == area[i] && tail[j - 1] == area[j];
        }
      }
    }
    if SeparatorFree(area) {
      forall i, j | 0 <= i < j < |tail| && j == i + 1
        ensures !(tail[i] == ':' && tail[j] == ':')
      {
        assert area[i + 1] == tail[i] && area[j + 1] == tail[j];
      }
    }
  }

  /** A written site reads back exactly when neither half is empty and the area neither holds nor ends in a separator. */
  lemma SiteRoundTrip(area: string, term: string)
    ensures ParseSite(SiteOf(area, term)) == Some((area, term)) <==> area != "" && term != "" && SeparatorFree(area)
  {
    var site := SiteOf(area, term);
    SeparatorAfter(area, term);
    var n := FirstSeparator(site);
    if n == |area| {
      assert site[..n] == area && site[n + 2..] == term;
    }
  }

  // ----- the extents the ledger excuses --------------------------------------------------------------------

  function Stripped(text: string): string {
    if text != "" && Space(text[0]) then Stripped(text[1..])
    else if text != "" && Space(text[|text| - 1]) then Stripped(text[..|text| - 1])
    else text
  }

  function DigitsEnd(text: string): (n: nat)
    ensures n <= |text|
    ensures forall i :: 0 <= i < n ==> IsDigit(text[i])
  {
    if text == "" || !IsDigit(text[0]) then 0 else 1 + DigitsEnd(text[1..])
  }

  /** `N files`, or `N file`; an absent text is an empty one. */
  function ParseExtent(found: Option<string>): Option<nat> {
    var text := Stripped(if found.Some? then found.value else "");
    var n := DigitsEnd(text);
    if n > 0 && (text[n..] == " file" || text[n..] == " files") then Some(JsonPointer.DigitsValue(text[..n])) else None
  }

  datatype Entry = Entry(id: string, site: string, found: Option<string>)

  /** The site and the extent of an entry that can be read. */
  function ExcuseOf(entry: Entry): Option<(Site, nat)> {
    var site, extent := ParseSite(entry.site), ParseExtent(entry.found);
    if site.Some? && extent.Some? then Some((site.value, extent.value)) else None
  }

  type Extents = map<Site, nat>

  function ExtentsOf(entries: seq<Entry>): Extents {
    Table(entries, ExcuseOf)
  }

  /** A site is excused exactly when an entry that can be read speaks of it, to the extent the last such entry records. */
  lemma ExtentsFind(entries: seq<Entry>, site: Site)
    ensures site in ExtentsOf(entries) <==> exists i: nat :: IsLatest(entries, ExcuseOf, site, i)
    ensures forall i: nat :: IsLatest(entries, ExcuseOf, site, i) ==>
              site in ExtentsOf(entries) && ExcuseOf(entries[i]) == Some((site, ExtentsOf(entries)[site]))
    ensures site !in ExtentsOf(entries) ==> forall i :: 0 <= i < |entries| ==> !States(entries[i], ExcuseOf, site)
  {
    TableFinds(entries, ExcuseOf, site);
  }

  method ReadExcuse(entry: Entry) returns (excuse: Option<(Site, nat)>)
    ensures excuse == ExcuseOf(entry)
  {
    var site := ParseSite(entry.site);
    if site.None? {
      return None;
    }
    var extent := ParseExtent(entry.found);
    excuse := if extent.None? then None else Some((site.value, extent.value));
  }

  /** The id of an entry that cannot be read. */
  predicate IsUnreadable(entry: Entry, id: string) {
    entry.id == id && ExcuseOf(entry).None?
  }

  ghost predicate AreUnreadable(entries: seq<Entry>, n: nat, unparsed: seq<string>)
    requires n <= |entries|
  {
    forall id :: id in unparsed <==> exists i :: 0 <= i < n && IsUnreadable(entries[i], id)
  }

  lemma ExcuseStep(entries: seq<Entry>, k: nat, unparsed: seq<string>)
    requires k < |entries| && AreUnreadable(entries, k, unparsed)
    ensures match ExcuseOf(entries[k])
            case None =>
              && ExtentsOf(entries[..k + 1]) == ExtentsOf(entries[..k])
              && AreUnreadable(entries, k + 1, unparsed + [entries[k].id])
            case Some(excuse) =>
              && ExtentsOf(entries[..k + 1]) == ExtentsOf(entries[..k])[excuse.0 := excuse.1]
              && AreUnreadable(entries, k + 1, unparsed)
  {
    TableStep(entries, ExcuseOf, k);
  }

  /** An entry nobody can read excuses nothing and is a fault. */
  method Excuses(entries: seq<Entry>) returns (extents: Extents, unparsed: seq<string>)
    ensures extents == ExtentsOf(entries)
    ensures AreUnreadable(entries, |entries|, unparsed)
  {
    extents, unparsed := map[], [];
    for k := 0 to |entries|
      invariant extents == ExtentsOf(entries[..k])
      invariant AreUnreadable(entries, k, unparsed)
    {
      ExcuseStep(entries, k, unparsed);
      var excuse := ReadExcuse(entries[k]);
      if excuse.None? {
        unparsed := unparsed + [entries[k].id];
      } else {
        extents := extents[excuse.value.0 := excuse.value.1];
      }
    }
    assert entries[..|entries|] == entries;
  }

  // ----- the verdict -------------------------------------------------------------------------------------------

  datatype GateFault =
    | TermOnLivingSurface(site: Site)
    | TermSpread(site: Site, extent: nat, recorded: nat)
    | LedgerExtentOverstated(site: Site, extent: nat, recorded: nat)
    | LedgerEntryStale(site: Site)

  predicate IsGateFault(found: Findings, extents: Extents, fault: GateFault) {
    match fault
    case TermOnLivingSurface(site) => site in found && site !in extents
    case TermSpread(site, extent, recorded) =>
      site in found && site in extents && extent == |found[site]| > extents[site] == recorded
    case LedgerExtentOverstated(site, extent, recorded) =>
      site in found && site in extents && extent == |found[site]| < extents[site] == recorded
    case LedgerEntryStale(site) => site in extents && site !in found
  }

  /** Every disagreement between the ledger and the tree, and nothing else. */
  method GateFaults(found: Findings, extents: Extents) returns (faults: seq<GateFault>)
    ensures forall fault :: fault in faults <==> IsGateFault(found, extents, fault)
  {
    faults := [];
    var rest := found.Keys;
    while rest != {}
      invariant rest <= found.Keys
      invariant forall fault :: fault in faults <==>
                  !fault.LedgerEntryStale? && IsGateFault(found, extents, fault) && fault.site !in rest
    {
      var site :| site in rest;
      var extent := |found[site]|;
      if site !in extents {
        faults := faults + [TermOnLivingSurface(site)];
      } else if extent > extents[site] {
        faults := faults + [TermSpread(site, extent, extents[site])];
      } else if extent < extents[site] {
        faults := faults + [LedgerExtentOverstated(site, extent, extents[site])];
      }
      rest := rest - {site};
    }
    var stale := extents.Keys - found.Keys;
    rest := stale;
    while rest != {}
      invariant rest <= stale
      invariant forall fault :: fault in faults <==>
                  IsGateFault(found, extents, fault) && (fault.LedgerEntryStale? ==> fault.site !in rest)
    {
      var site :| site in rest;
      faults := faults + [LedgerEntryStale(site)];
      rest := rest - {site};
    }
  }

  /** What the sweep measured. */
  function Measured(found: Findings): Extents {
    map site | site in found :: |found[site]|
  }

  /** The gate passes exactly when the ledger and the tree say the same, as maps. */
  lemma GatePassesIffLedgerIsTrue(found: Findings, extents: Extents)
    ensures (forall fault :: !IsGateFault(found, extents, fault)) <==> extents == Measured(found)
  {
    if forall fault :: !IsGateFault(found, extents, fault) {
      forall site: Site
        ensures site in extents <==> site in found
        ensures site in found ==> extents[site] == |found[site]|
      {
        assert !IsGateFault(found, extents, TermOnLivingSurface(site));
        assert !IsGateFault(found, extents, LedgerEntryStale(site));
        if site in found {
          var extent, recorded := |found[site]|, extents[site];
          assert !IsGateFault(found, extents, TermSpread(site, extent, recorded));
          assert !IsGateFault(found, extents, LedgerExtentOverstated(site, extent, recorded));
        }
      }
    }
  }

  // ----- from the tree to the verdict ------------------------------------------------------------------------

  /** The ledger's entries, read as extents, agree with what was found. */
  ghost predicate GatePasses(found: Findings, entries: seq<Entry>) {
    forall fault :: !IsGateFault(found, ExtentsOf(entries), fault)
  }

  ghost predicate RunIsClean(paths: seq<string>, plan: Plan, terms: set<string>, read: string -> Content, r: Result) {
    && DistinctIds(plan.exclusions)
    && IsPartition(paths, plan, r.swept, r.excluded) && IsFound(r.found, r.swept, plan, terms, read)
    && forall fault :: !RunFault(paths, plan, r, read, fault)
  }

  lemma CleanRunsAreAccountedFor(paths: seq<string>, plan: Plan, terms: set<string>, read: string -> Content, r: Result)
    requires RunIsClean(paths, plan, terms, read, r)
    ensures NoFaults(paths, plan, r.swept, r.excluded)
  {
    forall k, fault | 0 <= k < |paths|
      ensures !Overlap(plan, paths[k], fault)
    {
      assert !RunFault(paths, plan, r, read, fault);
    }
    forall fault
      ensures !AccountingFault(plan, r.excluded, fault) && !VacuityFault(plan, r.swept, fault)
    {
      assert !RunFault(paths, plan, r, read, fault);
    }
  }

  lemma CleanRunsRead(paths: seq<string>, plan: Plan, terms: set<string>, read: string -> Content, r: Result, path: string)
    requires RunIsClean(paths, plan, terms, read, r) && path in paths && !Excused(plan, path)
    ensures path in r.swept && read(path).Text?
  {
    TakenByARule(plan, path);
    var k :| 0 <= k < |r.swept| && r.swept[k] == path;
    assert ReadFault(path, read(path), TreeUnreadable(path)) ==> RunFault(paths, plan, r, read, TreeUnreadable(path));
    assert ReadFault(path, read(path), FileUndecodable(path)) ==> RunFault(paths, plan, r, read, FileUndecodable(path));
  }

  /**
   With no fault and a passing gate, a file no rule excuses was read, beside an
   anchor of its own area, and a retired term in it is recorded: the last entry
   of the ledger that speaks of the area and the term states the true number of
   files.
   */
  lemma NothingHides(paths: seq<string>, plan: Plan, terms: set<string>, read: string -> Content, r: Result,
                     entries: seq<Entry>, path: string, term: string)
    requires RunIsClean(paths, plan, terms, read, r) && GatePasses(r.found, entries)
    requires path in paths && term in terms && !Excused(plan, path)
    ensures read(path).Text?
    ensures exists anchor :: anchor in plan.anchors && anchor in r.swept && AreaOf(plan, anchor) == AreaOf(plan, path)
    ensures var site := (AreaOf(plan, path), term);
            var extent := |FilesOf(r.swept, plan, read, site)|;
            Occurs(read(path).text, term) ==>
              extent > 0 && exists i: nat :: IsLatest(entries, ExcuseOf, site, i) && ExcuseOf(entries[i]) == Some((site, extent))
  {
    CleanRunsRead(paths, plan, terms, read, r, path);
    CleanRunsAreAccountedFor(paths, plan, terms, read, r);
    EveryPathHasAnAnchor(paths, plan, r.swept, r.excluded, path);
    var site := (AreaOf(plan, path), term);
    if Occurs(read(path).text, term) {
      FilesAre(r.swept, plan, read, site);
      assert path in FilesOf(r.swept, plan, read, site);
      GatePassesIffLedgerIsTrue(r.found, ExtentsOf(entries));
      ExtentsFind(entries, site);
    }
  }

  /** Where no entry speaks of an area and a term, no file of the area outside the declared rules holds the term. */
  lemma EmptyLedgerMeansCleanTree(paths: seq<string>, plan: Plan, terms: set<string>, read: string -> Content, r: Result,
                                  entries: seq<Entry>, path: string, term: string)
    requires RunIsClean(paths, plan, terms, read, r) && GatePasses(r.found, entries)
    requires path in paths && term in terms
    requires forall i :: 0 <= i < |entries| ==> !States(entries[i], ExcuseOf, (AreaOf(plan, path), term))
    ensures Excused(plan, path) || !Holds(read(path), term)
  {
    if !Excused(plan, path) {
      NothingHides(paths, plan, terms, read, r, entries, path, term);
    }
  }

  // ----- recording what was measured ---------------------------------------------------------------------------

  lemma {:induction false} DigitsThen(digits: string, rest: string)
    requires forall c :: c in digits ==> IsDigit(c)
    requires rest == "" || !IsDigit(rest[0])
    ensures DigitsEnd(digits + rest) == |digits|
  {
    if digits == "" {
      assert digits + rest == rest;
    } else {
      assert (digits + rest)[1..] == digits[1..] + rest;
      DigitsThen(digits[1..], rest);
    }
  }

  /** The text the gate asks for reads back as the number measured. */
  lemma ExtentRoundTrip(n: nat)
    ensures ParseExtent(Some(JsonPointer.Decimal(n) + " files")) == Some(n)
  {
    var digits := JsonPointer.Decimal(n);
    var text := digits + " files";
    JsonPointer.DecimalValue(n);
    assert IsDigit(digits[0]) && text[0] == digits[0] && !Space(text[0]);
    assert text[|text| - 1] == 's';
    assert Stripped(text) == text;
    DigitsThen(digits, " files");
    assert text[..|digits|] == digits && text[|digits|..] == " files";
  }

  /** A site whose text reads back as it. */
  ghost predicate Writable(site: Site) {
    site.0 != "" && site.1 != "" && SeparatorFree(site.0)
  }

  lemma ParsedSitesAreWritable(text: string)
    ensures ParseSite(text).Some? ==> Writable(ParseSite(text).value)
  {
    ParsedSiteIsSpelled(text);
    if ParseSite(text).Some? {
      SiteRoundTrip(ParseSite(text).value.0, ParseSite(text).value.1);
    }
  }

  /** The entry that records an extent at a site. */
  function RecordOf(site: Site, n: nat): Entry {
    Entry(SiteOf(site.0, site.1), SiteOf(site.0, site.1), Some(JsonPointer.Decimal(n) + " files"))
  }

  lemma RecordReads(site: Site, n: nat)
    requires Writable(site)
    ensures ExcuseOf(RecordOf(site, n)) == Some((site, n))
  {
    SiteRoundTrip(site.0, site.1);
    ExtentRoundTrip(n);
  }

  lemma {:induction false} RecordsOf(extents: Extents) returns (entries: seq<Entry>)
    requires forall site :: site in extents ==> Writable(site)
    ensures ExtentsOf(entries) == extents
    decreases |extents|
  {
    if extents == map[] {
      entries := [];
    } else {
      var site :| site in extents;
      var rest := extents - {site};
      assert |rest| < |extents| by {
        assert rest.Keys == extents.Keys - {site};
      }
      var earlier := RecordsOf(rest);
      var last := RecordOf(site, extents[site]);
      entries := earlier + [last];
      RecordReads(site, extents[site]);
      TableStep(entries, ExcuseOf, |earlier|);
      assert entries[..|earlier| + 1] == entries && entries[..|earlier|] == earlier;
      assert rest[site := extents[site]] == extents;
    }
  }

  /**
   Some ledger lets the gate pass exactly when every site found can be written:
   the plan accepts an area named with `::` in it or `:` at its end, and a term
   found there can be excused by no entry.
   */
  lemma SomeLedgerPassesIffSitesAreWritable(found: Findings)
    ensures (exists entries: seq<Entry> :: GatePasses(found, entries)) <==> forall site :: site in found ==> Writable(site)
  {
    if entries: seq<Entry> :| GatePasses(found, entries) {
      GatePassesIffLedgerIsTrue(found, ExtentsOf(entries));
      forall site | site in found
        ensures Writable(site)
      {
        ExtentsFind(entries, site);
        var i: nat :| IsLatest(entries, ExcuseOf, site, i);
        ParsedSitesAreWritable(entries[i].site);
      }
    }
    if forall site :: site in found ==> Writable(site) {
      var entries := RecordsOf(Measured(found));
      GatePassesIffLedgerIsTrue(found, ExtentsOf(entries));
      assert GatePasses(found, entries);
    }
  }
}
