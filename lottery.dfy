/**
 * The rest of `main()` (main.py:154-204): draw up to four candidates, build
 * the new "Putzcrew KW <n>" page, turn each person into a Slack tag and
 * compose the announcement. The random draw, the HTTP status of the two
 * Notion requests and the Slack e-mail lookup are inputs of the model.
 */
module Lottery {
  import opened Wrappers
  import opened PyStr
  import opened Normalize
  import opened Members

  /** The number of people a week's crew has (main.py:166). */
  const TeamSize: nat := 4

  function Min(a: nat, b: nat): nat
  {
    if a < b then a else b
  }

  /** `picks` are `k` distinct positions of a population of size `n`. */
  predicate IsSample(picks: seq<nat>, n: nat, k: nat)
  {
    && |picks| == k
    && (forall i :: 0 <= i < |picks| ==> picks[i] < n)
    && (forall i, j :: 0 <= i < j < |picks| ==> picks[i] != picks[j])
  }

  /** The population members at the picked positions, in pick order. */
  function Picked(population: seq<Candidate>, picks: seq<nat>): seq<Candidate>
    requires forall i :: 0 <= i < |picks| ==> picks[i] < |population|
  {
    seq(|picks|, i requires 0 <= i < |picks| => population[picks[i]])
  }

  /** The positions below `n`. */
  function Below(n: nat): (r: set<nat>)
    ensures forall x: nat :: x in r <==> x < n
    ensures |r| == n
  {
    if n == 0 then {} else Below(n - 1) + {n - 1}
  }

  /** The positions a draw has used so far; as many as draws when none repeats. */
  function Used(picks: seq<nat>): (r: set<nat>)
    ensures forall x :: x in r <==> x in picks
    ensures (forall i, j :: 0 <= i < j < |picks| ==> picks[i] != picks[j]) ==> |r| == |picks|
  {
    if |picks| == 0 then {}
    else
      var init := picks[..|picks| - 1];
      assert forall x :: x in picks <==> x in init || x == picks[|picks| - 1];
      Used(init) + {picks[|picks| - 1]}
  }

  /** While fewer than `n` distinct positions below `n` are taken, one is still free. */
  lemma UnusedPositionExists(picks: seq<nat>, n: nat)
    requires IsSample(picks, n, |picks|) && |picks| < n
    ensures exists j :: 0 <= j < n && j !in picks
  {
    if forall j :: 0 <= j < n ==> j in picks {
      assert Below(n) <= Used(picks);
      SubsetCount(Below(n), Used(picks));
      assert false;
    }
  }

  lemma SubsetCount(a: set<nat>, b: set<nat>)
    requires a <= b
    ensures |a| <= |b|
  {
    assert b == a + (b - a);
  }

  /**
   * `random.sample(population, k)`: draws one still-unused position after
   * the other. Which position is drawn is left open; the result is `k`
   * distinct positions and the population members there.
   */
  method Sample(population: seq<Candidate>, k: nat) returns (picks: seq<nat>, selected: seq<Candidate>)
    requires k <= |population|
    ensures IsSample(picks, |population|, k)
    ensures selected == Picked(population, picks)
  {
    picks, selected := [], [];
    while |picks| < k
      invariant |picks| <= k
      invariant IsSample(picks, |population|, |picks|)
      invariant selected == Picked(population, picks)
    {
      UnusedPositionExists(picks, |population|);
      var j :| 0 <= j < |population| && j !in picks;
      picks := picks + [j];
      selected := selected + [population[j]];
    }
  }

  /**
   * A sample takes only members of the population, none twice: with
   * distinct ids in the population, the selected ids are distinct too.
   */
  lemma SampleIsSubsetWithoutRepeats(population: seq<Candidate>, picks: seq<nat>, k: nat)
    requires IsSample(picks, |population|, k)
    ensures |Picked(population, picks)| == k
    ensures forall i :: 0 <= i < k ==> Picked(population, picks)[i] in population
    ensures DistinctCandidateIds(population) ==> DistinctCandidateIds(Picked(population, picks))
  {
    var s := Picked(population, picks);
    if DistinctCandidateIds(population) {
      forall i, j | 0 <= i < j < |s| ensures s[i].id != s[j].id {
        assert s[i] == population[picks[i]] && s[j] == population[picks[j]];
        if picks[i] < picks[j] {
        } else {
          assert picks[j] < picks[i];
        }
      }
    }
  }

  // ----- the new Notion page (main.py:169-178) -----

  /**
   * The page created in the rota database: its parent data source, the
   * `Woche` title and the ids of the `Test` relation.
   */
  datatype NewPage = NewPage(parent: string, week: string, crew: seq<string>)

  function WeekTitle(kw: nat): string
  {
    "Putzcrew KW " + Decimal(kw)
  }

  /** `[{"id": p["id"]} for p in selected]` */
  function CrewIds(selected: seq<Candidate>): seq<string>
  {
    seq(|selected|, i requires 0 <= i < |selected| => selected[i].id)
  }

  function PagePayload(parent: string, kw: nat, selected: seq<Candidate>): NewPage
  {
    NewPage(parent, WeekTitle(kw), CrewIds(selected))
  }

  /**
   * The page title is "Putzcrew KW " followed by the decimal digits of the
   * ISO week plus one, with no wrap-around: ISO week 53 gives KW 54.
   */
  lemma WeekTitleNamesNextWeek(isoWeek: nat)
    ensures var t := WeekTitle(isoWeek + 1);
      && |t| > 12 && t[..12] == "Putzcrew KW "
      && (forall k :: 12 <= k < |t| ==> '0' <= t[k] <= '9')
      && DecimalValue(t[12..]) == isoWeek + 1
  {
    DecimalRoundTrip(isoWeek + 1);
    var t := WeekTitle(isoWeek + 1);
    assert t[12..] == Decimal(isoWeek + 1);
  }

  // ----- Slack tags and the announcement (main.py:188-198) -----

  /** The lookup of a Slack user id by e-mail address; `None` when Slack reports an error. */
  type SlackLookup = string -> Option<string>

  /**
   * `person["name"].split(',')[-1].strip()`: a tag with no comma in it and
   * no whitespace at either end.
   */
  function FallbackTag(name: string): (r: string)
    ensures ',' !in r && NoEdgeSpace(r)
  {
    var parts := Split(name, ',');
    SplitLast(name, ',');
    StripKeepsOut(parts[|parts| - 1], ',');
    StripIsMaximalTrim(parts[|parts| - 1]);
    Strip(parts[|parts| - 1])
  }

  /** `<@id>` when the lookup yields a non-empty id (Python truthiness), else the fallback. */
  function SlackTag(p: Candidate, lookup: SlackLookup): string
  {
    match lookup(p.email)
    case Some(id) => if |id| > 0 then "<@" + id + ">" else FallbackTag(p.name)
    case None => FallbackTag(p.name)
  }

  /** The tags of `selected`, one per person, in order. */
  function SlackTags(selected: seq<Candidate>, lookup: SlackLookup): seq<string>
  {
    if |selected| == 0 then []
    else SlackTags(selected[..|selected| - 1], lookup) + [SlackTag(selected[|selected| - 1], lookup)]
  }

  /** One tag per person, in the order of the selection. */
  lemma {:induction false} SlackTagsOnePerPerson(selected: seq<Candidate>, lookup: SlackLookup)
    ensures |SlackTags(selected, lookup)| == |selected|
    ensures forall k :: 0 <= k < |selected| ==> SlackTags(selected, lookup)[k] == SlackTag(selected[k], lookup)
  {
    if |selected| > 0 {
      var init := selected[..|selected| - 1];
      SlackTagsOnePerPerson(init, lookup);
      assert forall k :: 0 <= k < |init| ==> init[k] == selected[k];
    }
  }

  /** The loop of main.py:188-196. */
  method BuildSlackTags(selected: seq<Candidate>, lookup: SlackLookup) returns (tags: seq<string>)
    ensures tags == SlackTags(selected, lookup)
  {
    tags := [];
    for n := 0 to |selected|
      invariant tags == SlackTags(selected[..n], lookup)
    {
      assert selected[..n + 1][..n] == selected[..n];
      var sId := lookup(selected[n].email);
      if sId.Some? && |sId.value| > 0 {
        tags := tags + ["<@" + sId.value + ">"];
      } else {
        var namePart := FallbackTag(selected[n].name);
        tags := tags + [namePart];
      }
    }
    assert selected[..|selected|] == selected;
  }

  lemma StripKeepsOut(s: string, c: char)
    requires c !in s
    ensures c !in Strip(s)
  {
    StripIsMaximalTrim(s);
    var i, j :| 0 <= i <= j <= |s| && Strip(s) == s[i..j];
    assert forall k :: 0 <= k < j - i ==> Strip(s)[k] == s[i + k];
  }

  /**
   * A tag is the mention `<@id>` exactly when the lookup finds a non-empty
   * id; otherwise it is the stripped text after the last comma of the name
   * (the whole name when there is no comma), which holds no comma itself.
   */
  lemma SlackTagShape(p: Candidate, lookup: SlackLookup)
    ensures lookup(p.email).Some? && |lookup(p.email).value| > 0 ==>
              SlackTag(p, lookup) == "<@" + lookup(p.email).value + ">"
    ensures !(lookup(p.email).Some? && |lookup(p.email).value| > 0) ==>
              && ',' !in SlackTag(p, lookup)
              && NoEdgeSpace(SlackTag(p, lookup))
              && exists i :: 0 <= i <= |p.name| && ',' !in p.name[i..] && (i == 0 || p.name[i - 1] == ',')
                   && SlackTag(p, lookup) == Strip(p.name[i..])
  {
    var parts := Split(p.name, ',');
    var last := parts[|parts| - 1];
    SplitLast(p.name, ',');
    StripKeepsOut(last, ',');
    StripIsMaximalTrim(last);
    var i := |p.name| - |last|;
    assert p.name[i..] == last;
  }

  /**
   * The fallback tag and the e-mail take the first name from different
   * pieces. For a name with exactly one comma both use the text after it;
   * for "Last, First, Suffix" (say "Müller, Jürgen, Dr.") the address is
   * built from First while the tag is Suffix.
   */
  lemma FallbackUsesLastPiece(name: string)
    requires Count(name, ',') == 1
    ensures |Split(name, ',')| == 2 && FallbackTag(name) == Strip(Split(name, ',')[1])
  {
    SplitPieces(name, ',');
  }

  lemma FallbackDiffersFromEmailName(last: string, first: string, suffix: string)
    requires ',' !in last && ',' !in first && ',' !in suffix
    ensures var name := last + "," + first + "," + suffix;
      && Split(name, ',') == [last, first, suffix]
      && FallbackTag(name) == Strip(suffix)
  {
    SplitNoSeparator(suffix, ',');
    SplitAppend(first, suffix, ',');
    SplitAppend(last, first + "," + suffix, ',');
    assert last + "," + first + "," + suffix == last + [','] + (first + [','] + suffix);
  }

  const Broom: string := "\U{1F9F9}"

  /** The text of main.py:198 in front of the tags. */
  function Header(kw: nat): string
  {
    Broom + " *Putzplan KW " + Decimal(kw) + " ist da!* " + Broom + "\n\nDiese Woche sind dran: "
  }

  /** The f-string of main.py:198 with the tags joined by ", ". */
  function Announcement(kw: nat, tags: seq<string>): string
  {
    Header(kw) + Join(tags, ", ")
  }

  /** Every tag after the first, preceded by the space of the ", " separator. */
  function Spaced(tags: seq<string>): seq<string>
    requires |tags| >= 1
  {
    [tags[0]] + seq(|tags| - 1, i requires 0 <= i < |tags| - 1 => " " + tags[i + 1])
  }

  lemma {:induction false} JoinCommaSpace(tags: seq<string>)
    requires |tags| >= 1
    ensures Join(tags, ", ") == Join(Spaced(tags), [','])
  {
    if |tags| > 1 {
      JoinCommaSpace(tags[1..]);
      var sp := Spaced(tags);
      assert sp[1..] == [" " + tags[1]] + Spaced(tags[1..])[1..];
      var rest := Join(Spaced(tags[1..]), [',']);
      if |tags| == 2 {
        assert Join(sp[1..], [',']) == " " + tags[1];
      } else {
        assert Join(sp[1..], [',']) == " " + tags[1] + [','] + Join(Spaced(tags[1..])[1..], [',']);
      }
    }
  }

  /**
   * The tags are joined with ", " so that they can be told apart: when no
   * tag holds a comma, splitting the list at the commas gives the tags back,
   * each after the first with the one leading space.
   */
  lemma AnnouncementListsTags(tags: seq<string>)
    requires |tags| >= 1
    requires forall k :: 0 <= k < |tags| ==> ',' !in tags[k]
    ensures Split(Join(tags, ", "), ',') == Spaced(tags)
  {
    JoinCommaSpace(tags);
    var sp := Spaced(tags);
    forall k | 0 <= k < |sp| ensures ',' !in sp[k] {
      if k > 0 {
        assert sp[k] == " " + tags[k];
      }
    }
    SplitJoin(sp, ',');
  }

  // ----- the whole run -----

  /** How a run ends, with the page it sends to Notion and the message it posts to Slack. */
  datatype Outcome =
    | QueryFailed                                  // the member query did not answer 200
    | NoCandidates                                 // nobody is eligible: nothing is drawn
    | CreateFailed(page: NewPage)                  // page creation did not answer 200: no message
    | Announced(page: NewPage, message: string)    // page created and message posted

  const StatusOk: int := 200

  /** The requirement on the draw: `min(n, 4)` distinct positions of the candidate list. */
  predicate ValidDraw(results: seq<Member>, domain: string, ucd: UnicodeData, picks: seq<nat>)
  {
    var cs := Candidates(results, domain, ucd);
    IsSample(picks, |cs|, Min(|cs|, TeamSize))
  }

  /** What `main()` does, given the draw `picks` random.sample made. */
  function Run(queryStatus: int, results: seq<Member>, domain: string, ucd: UnicodeData,
               rotaSource: string, isoWeek: nat, createStatus: int, lookup: SlackLookup,
               picks: seq<nat>): (r: Outcome)
    requires queryStatus == StatusOk ==> ValidDraw(results, domain, ucd, picks)
    ensures r.QueryFailed? <==> queryStatus != StatusOk
    ensures r.Announced? ==> createStatus == StatusOk
  {
    var cs := Candidates(results, domain, ucd);
    if queryStatus != StatusOk then QueryFailed
    else if |cs| == 0 then NoCandidates
    else
      var selected := Picked(cs, picks);
      var kw := isoWeek + 1;
      var page := PagePayload(rotaSource, kw, selected);
      if createStatus != StatusOk then CreateFailed(page)
      else Announced(page, Announcement(kw, SlackTags(selected, lookup)))
  }

  /**
   * `main()` with the Notion and Slack calls replaced by their answers: the
   * status of the member query and its results, the status of the page
   * creation, and the Slack lookup. The ISO week is an input too.
   */
  method RunLottery(queryStatus: int, results: seq<Member>, domain: string, ucd: UnicodeData,
                   rotaSource: string, isoWeek: nat, createStatus: int, lookup: SlackLookup)
    returns (outcome: Outcome, picks: seq<nat>)
    ensures queryStatus == StatusOk ==> ValidDraw(results, domain, ucd, picks)
    ensures outcome == Run(queryStatus, results, domain, ucd, rotaSource, isoWeek, createStatus, lookup, picks)
  {
    picks := [];
    if queryStatus != StatusOk {
      outcome := QueryFailed;
      return;
    }
    var candidates := BuildCandidates(results, domain, ucd);
    if |candidates| == 0 {
      outcome := NoCandidates;
      return;
    }
    var selected;
    picks, selected := Sample(candidates, Min(|candidates|, TeamSize));
    var kw := isoWeek + 1;
    var page := PagePayload(rotaSource, kw, selected);
    if createStatus != StatusOk {
      outcome := CreateFailed(page);
      return;
    }
    var tags := BuildSlackTags(selected, lookup);
    outcome := Announced(page, Announcement(kw, tags));
  }

  /**
   * A run reaches Notion's page creation only when the query succeeded and
   * someone is eligible, and it posts to Slack only when the page was
   * created as well; otherwise it stops with nothing drawn, created or posted.
   */
  lemma RunStopsEarly(queryStatus: int, results: seq<Member>, domain: string, ucd: UnicodeData,
                      rotaSource: string, isoWeek: nat, createStatus: int, lookup: SlackLookup,
                      picks: seq<nat>)
    requires queryStatus == StatusOk ==> ValidDraw(results, domain, ucd, picks)
    ensures var o := Run(queryStatus, results, domain, ucd, rotaSource, isoWeek, createStatus, lookup, picks);
      && (o.QueryFailed? <==> queryStatus != StatusOk)
      && (o.NoCandidates? <==> queryStatus == StatusOk && |Candidates(results, domain, ucd)| == 0)
      && ((o.CreateFailed? || o.Announced?) <==>
            queryStatus == StatusOk && |Candidates(results, domain, ucd)| > 0)
      && (o.Announced? <==>
            queryStatus == StatusOk && |Candidates(results, domain, ucd)| > 0 && createStatus == StatusOk)
  {
  }

  /**
   * The created page: its parent is the rota data source, its title names
   * the week after the current ISO week, and its relation lists
   * min(|candidates|, 4) ids, each the id of an eligible member, none twice
   * when member ids are unique.
   */
  lemma RunCrew(queryStatus: int, results: seq<Member>, domain: string, ucd: UnicodeData,
                rotaSource: string, isoWeek: nat, createStatus: int, lookup: SlackLookup,
                picks: seq<nat>)
    requires queryStatus == StatusOk && ValidDraw(results, domain, ucd, picks)
    requires |Candidates(results, domain, ucd)| > 0
    ensures var o := Run(queryStatus, results, domain, ucd, rotaSource, isoWeek, createStatus, lookup, picks);
      && (o.CreateFailed? || o.Announced?)
      && o.page.parent == rotaSource
      && o.page.week == WeekTitle(isoWeek + 1)
      && |o.page.crew| == Min(|Candidates(results, domain, ucd)|, TeamSize)
      && (forall k :: 0 <= k < |o.page.crew| ==>
            exists i :: 0 <= i < |results| && results[i].id == o.page.crew[k] && Eligible(results[i]))
      && (DistinctIds(results) ==>
            forall k, l :: 0 <= k < l < |o.page.crew| ==> o.page.crew[k] != o.page.crew[l])
  {
    var cs := Candidates(results, domain, ucd);
    var ps := EligiblePositions(results);
    RunPastQuery(queryStatus, results, domain, ucd, rotaSource, isoWeek, createStatus, lookup, picks);
    CrewOfDraw(cs, picks, Min(|cs|, TeamSize));
    var crew := CrewIds(Picked(cs, picks));
    CandidatesAreEligibleInOrder(results, domain, ucd);
    forall k | 0 <= k < |crew|
      ensures exists i :: 0 <= i < |results| && results[i].id == crew[k] && Eligible(results[i])
    {
      var j := picks[k];
      assert crew[k] == cs[j].id == results[ps[j]].id;
    }
    if DistinctIds(results) {
      CandidateIdsDistinct(results, domain, ucd);
    }
  }

  /**
   * The crew of a draw: one id per pick, the id of the candidate at that
   * position, none twice when the candidates' ids are distinct.
   */
  lemma CrewOfDraw(cs: seq<Candidate>, picks: seq<nat>, size: nat)
    requires IsSample(picks, |cs|, size)
    ensures var crew := CrewIds(Picked(cs, picks));
      && |crew| == size
      && (forall k :: 0 <= k < size ==> crew[k] == cs[picks[k]].id)
      && (DistinctCandidateIds(cs) ==> forall k, l :: 0 <= k < l < |crew| ==> crew[k] != crew[l])
  {
    var selected := Picked(cs, picks);
    SampleIsSubsetWithoutRepeats(cs, picks, size);
    assert forall k :: 0 <= k < size ==> CrewIds(selected)[k] == selected[k].id;
  }

  /**
   * The message names the crew: it is the header for the new week number
   * followed by one tag per crew member, in the crew's order, joined with
   * ", "; each tag is the Slack tag of the candidate with that crew id.
   */
  lemma RunMessage(queryStatus: int, results: seq<Member>, domain: string, ucd: UnicodeData,
                   rotaSource: string, isoWeek: nat, createStatus: int, lookup: SlackLookup,
                   picks: seq<nat>)
    requires queryStatus == StatusOk && ValidDraw(results, domain, ucd, picks)
    requires |Candidates(results, domain, ucd)| > 0 && createStatus == StatusOk
    ensures var o := Run(queryStatus, results, domain, ucd, rotaSource, isoWeek, createStatus, lookup, picks);
      && o.Announced?
      && exists tags ::
           && |tags| == |o.page.crew|
           && o.message == Header(isoWeek + 1) + Join(tags, ", ")
           && forall k :: 0 <= k < |tags| ==>
                exists p :: p in Candidates(results, domain, ucd) && p.id == o.page.crew[k] && tags[k] == SlackTag(p, lookup)
  {
    var cs := Candidates(results, domain, ucd);
    RunPastQuery(queryStatus, results, domain, ucd, rotaSource, isoWeek, createStatus, lookup, picks);
    AnnouncementNamesCrew(cs, picks, Min(|cs|, TeamSize), rotaSource, isoWeek + 1, lookup);
  }

  /** The announcement for a draw names its crew, one tag per id, in order. */
  lemma AnnouncementNamesCrew(cs: seq<Candidate>, picks: seq<nat>, size: nat, rotaSource: string, kw: nat,
                              lookup: SlackLookup)
    requires IsSample(picks, |cs|, size)
    ensures var selected := Picked(cs, picks);
      var crew := PagePayload(rotaSource, kw, selected).crew;
      exists tags ::
        && |tags| == |crew|
        && Announcement(kw, SlackTags(selected, lookup)) == Header(kw) + Join(tags, ", ")
        && forall k :: 0 <= k < |tags| ==>
             exists p :: p in cs && p.id == crew[k] && tags[k] == SlackTag(p, lookup)
  {
    var selected := Picked(cs, picks);
    var tags := SlackTags(selected, lookup);
    TagsFollowCrew(cs, picks, size, lookup);
    AnnouncementIsHeaderAndTags(kw, tags);
  }

  lemma AnnouncementIsHeaderAndTags(kw: nat, tags: seq<string>)
    ensures Announcement(kw, tags) == Header(kw) + Join(tags, ", ")
  {
  }

  /** Past a successful query with someone eligible, a run creates the page for the drawn crew. */
  lemma RunPastQuery(queryStatus: int, results: seq<Member>, domain: string, ucd: UnicodeData,
                     rotaSource: string, isoWeek: nat, createStatus: int, lookup: SlackLookup,
                     picks: seq<nat>)
    requires queryStatus == StatusOk && ValidDraw(results, domain, ucd, picks)
    requires |Candidates(results, domain, ucd)| > 0
    ensures var selected := Picked(Candidates(results, domain, ucd), picks);
      var page := PagePayload(rotaSource, isoWeek + 1, selected);
      Run(queryStatus, results, domain, ucd, rotaSource, isoWeek, createStatus, lookup, picks) ==
        if createStatus != StatusOk then CreateFailed(page)
        else Announced(page, Announcement(isoWeek + 1, SlackTags(selected, lookup)))
  {
  }

  /** The tags of a draw follow its crew ids: the k-th tag is the tag of the candidate with the k-th id. */
  lemma TagsFollowCrew(cs: seq<Candidate>, picks: seq<nat>, size: nat, lookup: SlackLookup)
    requires IsSample(picks, |cs|, size)
    ensures var selected := Picked(cs, picks); var tags := SlackTags(selected, lookup);
      && |tags| == |CrewIds(selected)|
      && forall k :: 0 <= k < |tags| ==>
           exists p :: p in cs && p.id == CrewIds(selected)[k] && tags[k] == SlackTag(p, lookup)
  {
    var selected := Picked(cs, picks);
    var tags := SlackTags(selected, lookup);
    SlackTagsOnePerPerson(selected, lookup);
    forall k | 0 <= k < |tags|
      ensures exists p :: p in cs && p.id == CrewIds(selected)[k] && tags[k] == SlackTag(p, lookup)
    {
      assert selected[k] == cs[picks[k]];
    }
  }
}
