/**
 * The member records the Notion query returns and the loop of `main()` that
 * turns them into lottery candidates (main.py:114-152): a member is kept when
 * its icon is not the ❓ emoji, its `Putzplan` relation is empty, it has a
 * title whose first segment is plain text, and that text holds a comma; the
 * candidate gets an e-mail address built from "Lastname, Firstname".
 */
module Members {
  import opened Wrappers
  import opened PyStr
  import opened Normalize

  /** A page icon: none (`null`), an emoji, or any other kind (file, external, custom emoji). */
  datatype Icon = NoIcon | EmojiIcon(emoji: string) | OtherIcon

  /**
   * One segment of a title property. Only a `text` segment has the
   * `["text"]["content"]` entry the script reads; a mention or an equation
   * does not.
   */
  datatype RichText = TextRun(content: string) | OtherRun

  /**
   * A member page as the script reads it: its id, its icon, the ids in its
   * `Putzplan` relation (empty when the property or its `relation` entry is
   * missing), and the segments of its title property (`None` when no
   * property has type `title`).
   */
  datatype Member = Member(id: string, icon: Icon, putzplan: seq<string>, title: Option<seq<RichText>>)

  datatype Candidate = Candidate(id: string, name: string, email: string)

  /** What the loop body decides about one member. */
  datatype Verdict =
    | InQuestion                 // icon is the ❓ emoji
    | AlreadyCleaned             // the Putzplan relation is not empty
    | NoTitle                    // no title property, or an empty one: `continue`
    | ParseError                 // first title segment is not text: KeyError, caught and logged
    | NoComma                    // the name has no comma: dropped without a message
    | Accepted(candidate: Candidate)

  const QuestionMark: string := "\U{2753}"

  /**
   * main.py:117-121: the emoji of an emoji icon, `None` otherwise; so only
   * the ❓ emoji icon itself marks a member as in question.
   */
  function EmojiOf(icon: Icon): (r: Option<string>)
    ensures r.Some? <==> icon.EmojiIcon?
    ensures icon.EmojiIcon? ==> r == Some(icon.emoji)
    ensures r == Some(QuestionMark) <==> icon == EmojiIcon(QuestionMark)
  {
    match icon
    case EmojiIcon(e) => Some(e)
    case _ => None
  }

  /**
   * The e-mail address of main.py:141-144: `parts = name.split(',')`, then
   * `clean(parts[1].strip()) + "." + clean(parts[0].strip()) + "@" + domain`.
   */
  function Email(name: string, domain: string, ucd: UnicodeData): (r: string)
    requires ',' in name
    ensures IsAddressAt(r, domain)
  {
    var parts := Split(name, ',');
    SplitCountsComma(name);
    CleanedIsTrimmedAscii(Strip(parts[1]), ucd);
    CleanedIsTrimmedAscii(Strip(parts[0]), ucd);
    Address(Cleaned(Strip(parts[1]), ucd), Cleaned(Strip(parts[0]), ucd), domain)
  }

  /** An address in `domain` whose local part is ASCII. */
  predicate IsAddressAt(r: string, domain: string)
  {
    && |r| > |domain| && r[|r| - |domain| - 1..] == "@" + domain
    && AllAscii(r[..|r| - |domain| - 1])
  }

  /** `f"{vorname}.{nachname}@{EMAIL_DOMAIN}"` for ASCII name tokens. */
  function Address(first: string, last: string, domain: string): (r: string)
    requires AllAscii(first) && AllAscii(last)
    ensures IsAddressAt(r, domain)
  {
    var local := first + "." + last;
    assert (local + "@" + domain)[..|local|] == local;
    local + "@" + domain
  }

  lemma SplitCountsComma(name: string)
    requires ',' in name
    ensures |Split(name, ',')| >= 2
  {
    SplitPieces(name, ',');
    CountPositive(name, ',');
  }

  lemma {:induction false} CountPositive(s: string, c: char)
    requires c in s
    ensures Count(s, c) > 0
  {
    if s[0] != c {
      CountPositive(s[1..], c);
    }
  }

  /**
   * The loop body of main.py:116-152 for one member: the ❓ icon is checked
   * first, then the Putzplan relation, and only a member passing both and
   * having a first title segment of text with a comma in it is accepted,
   * under its own id and with that text as its name.
   */
  function Classify(m: Member, domain: string, ucd: UnicodeData): (v: Verdict)
    ensures v == InQuestion <==> m.icon == EmojiIcon(QuestionMark)
    ensures v == AlreadyCleaned <==> m.icon != EmojiIcon(QuestionMark) && |m.putzplan| > 0
    ensures v.Accepted? ==>
      && m.title.Some? && |m.title.value| > 0
      && m.title.value[0] == TextRun(v.candidate.name)
      && ',' in v.candidate.name && v.candidate.id == m.id
  {
    if EmojiOf(m.icon) == Some(QuestionMark) then InQuestion
    else if |m.putzplan| != 0 then AlreadyCleaned
    else if m.title.None? || |m.title.value| == 0 then NoTitle
    else match m.title.value[0]
      case OtherRun => ParseError
      case TextRun(name) =>
        if ',' in name then Accepted(Candidate(m.id, name, Email(name, domain, ucd)))
        else NoComma
  }

  /** The four conditions a member must meet to enter the lottery. */
  predicate Eligible(m: Member)
  {
    && EmojiOf(m.icon) != Some(QuestionMark)
    && |m.putzplan| == 0
    && m.title.Some? && |m.title.value| > 0
    && m.title.value[0].TextRun?
    && ',' in m.title.value[0].content
  }

  /**
   * The branches of the loop body accept a member exactly when it is
   * eligible, and then with the candidate that carries its id unchanged, its
   * first title text as the name, and the e-mail derived from that name.
   */
  lemma AcceptedIffEligible(m: Member, domain: string, ucd: UnicodeData)
    ensures Classify(m, domain, ucd).Accepted? <==> Eligible(m)
    ensures Eligible(m) ==> Classify(m, domain, ucd) == Accepted(CandidateOf(m, domain, ucd))
  {
  }

  /** A name without a comma gets no fallback address: the member is simply not a candidate. */
  lemma NoCommaIsDropped(m: Member, domain: string, ucd: UnicodeData)
    requires EmojiOf(m.icon) != Some(QuestionMark) && |m.putzplan| == 0
    requires m.title.Some? && |m.title.value| > 0 && m.title.value[0].TextRun?
    requires ',' !in m.title.value[0].content
    ensures Classify(m, domain, ucd) == NoComma
  {
  }

  /** What a verdict adds to the candidate list. */
  function Kept(v: Verdict): seq<Candidate>
  {
    if v.Accepted? then [v.candidate] else []
  }

  /**
   * The candidate list of main.py:114-152 for the members `rs`: the
   * verdict of the loop body on each member, in their order.
   */
  function Candidates(rs: seq<Member>, domain: string, ucd: UnicodeData): seq<Candidate>
  {
    if |rs| == 0 then []
    else Candidates(rs[..|rs| - 1], domain, ucd) + Kept(Classify(rs[|rs| - 1], domain, ucd))
  }

  /** The positions of the eligible members of `rs`, in increasing order. */
  function EligiblePositions(rs: seq<Member>): seq<nat>
  {
    if |rs| == 0 then []
    else EligiblePositions(rs[..|rs| - 1]) + if Eligible(rs[|rs| - 1]) then [|rs| - 1] else []
  }

  /** The candidate an eligible member yields: its id, its name and the derived address. */
  function CandidateOf(m: Member, domain: string, ucd: UnicodeData): Candidate
    requires Eligible(m)
  {
    var name := m.title.value[0].content;
    Candidate(m.id, name, Email(name, domain, ucd))
  }

  /**
   * The candidates are exactly the eligible members, in input order: the
   * j-th candidate comes from the j-th eligible position, positions strictly
   * increase, and a position is used if and only if its member is eligible.
   */
  lemma CandidatesAreEligibleInOrder(rs: seq<Member>, domain: string, ucd: UnicodeData)
    ensures var cs, ps := Candidates(rs, domain, ucd), EligiblePositions(rs);
      && |cs| == |ps|
      && (forall j :: 0 <= j < |ps| ==> ps[j] < |rs| && Eligible(rs[ps[j]]))
      && (forall j :: 0 <= j < |ps| ==> cs[j] == CandidateOf(rs[ps[j]], domain, ucd))
      && (forall j, k :: 0 <= j < k < |ps| ==> ps[j] < ps[k])
      && (forall i :: 0 <= i < |rs| && Eligible(rs[i]) ==> i in ps)
  {
    EligiblePositionsExact(rs);
    CandidatesFollowPositions(rs, domain, ucd);
  }

  lemma {:induction false} EligiblePositionsExact(rs: seq<Member>)
    ensures var ps := EligiblePositions(rs);
      && (forall j :: 0 <= j < |ps| ==> ps[j] < |rs| && Eligible(rs[ps[j]]))
      && (forall j, k :: 0 <= j < k < |ps| ==> ps[j] < ps[k])
      && (forall i :: 0 <= i < |rs| && Eligible(rs[i]) ==> i in ps)
  {
    if |rs| > 0 {
      var n := |rs| - 1;
      var init := rs[..n];
      EligiblePositionsExact(init);
      assert forall i :: 0 <= i < n ==> rs[i] == init[i];
    }
  }

  lemma {:induction false} CandidatesFollowPositions(rs: seq<Member>, domain: string, ucd: UnicodeData)
    requires forall j :: 0 <= j < |EligiblePositions(rs)| ==> EligiblePositions(rs)[j] < |rs|
    ensures var cs, ps := Candidates(rs, domain, ucd), EligiblePositions(rs);
      && |cs| == |ps|
      && (forall j :: 0 <= j < |ps| ==> Eligible(rs[ps[j]]) && cs[j] == CandidateOf(rs[ps[j]], domain, ucd))
  {
    if |rs| > 0 {
      var n := |rs| - 1;
      var init := rs[..n];
      EligiblePositionsExact(init);
      EligiblePositionsExact(rs);
      CandidatesFollowPositions(init, domain, ucd);
      AcceptedIffEligible(rs[n], domain, ucd);
      assert forall i :: 0 <= i < n ==> rs[i] == init[i];
    }
  }

  /**
   * A member whose Putzplan relation is not empty is never a candidate
   * (member ids being unique, as page ids are).
   */
  lemma AssignedNeverCandidate(rs: seq<Member>, domain: string, ucd: UnicodeData, i: nat)
    requires DistinctIds(rs)
    requires i < |rs| && |rs[i].putzplan| > 0
    ensures forall c :: c in Candidates(rs, domain, ucd) ==> c.id != rs[i].id
  {
    CandidatesAreEligibleInOrder(rs, domain, ucd);
    var cs, ps := Candidates(rs, domain, ucd), EligiblePositions(rs);
    forall c | c in cs ensures c.id != rs[i].id {
      var j :| 0 <= j < |cs| && cs[j] == c;
      var m := rs[ps[j]];
      assert Eligible(m) && c.id == m.id;
      assert ps[j] != i;
    }
  }

  predicate DistinctIds(rs: seq<Member>)
  {
    forall i, j :: 0 <= i < j < |rs| ==> rs[i].id != rs[j].id
  }

  predicate DistinctCandidateIds(cs: seq<Candidate>)
  {
    forall i, j :: 0 <= i < j < |cs| ==> cs[i].id != cs[j].id
  }

  /** Members with distinct ids give candidates with distinct ids. */
  lemma CandidateIdsDistinct(rs: seq<Member>, domain: string, ucd: UnicodeData)
    requires DistinctIds(rs)
    ensures DistinctCandidateIds(Candidates(rs, domain, ucd))
  {
    CandidatesAreEligibleInOrder(rs, domain, ucd);
    var cs, ps := Candidates(rs, domain, ucd), EligiblePositions(rs);
    forall i, j | 0 <= i < j < |cs| ensures cs[i].id != cs[j].id {
      assert cs[i].id == rs[ps[i]].id && cs[j].id == rs[ps[j]].id;
    }
  }

  /**
   * The e-mail address in positional terms: for the first comma at `i`, the
   * part after the `.` is the cleaned text before `i`, and the part before
   * the `.` is the cleaned text between that comma and the next one (or the
   * end of the name). Both halves are ASCII.
   */
  lemma EmailFromNameHalves(name: string, domain: string, ucd: UnicodeData, i: nat, j: nat)
    requires i < |name| && name[i] == ',' && ',' !in name[..i]
    requires i < j <= |name| && ',' !in name[i + 1..j] && (j == |name| || name[j] == ',')
    ensures Email(name, domain, ucd) ==
      Cleaned(Strip(name[i + 1..j]), ucd) + "." + Cleaned(Strip(name[..i]), ucd) + "@" + domain
    ensures AllAscii(Cleaned(Strip(name[i + 1..j]), ucd)) && AllAscii(Cleaned(Strip(name[..i]), ucd))
  {
    SplitAtFirst(name, ',', i);
    var rest := name[i + 1..];
    if j == |name| {
      assert rest == name[i + 1..j];
      SplitNoSeparator(rest, ',');
    } else {
      assert rest[j - i - 1] == ',' && rest[..j - i - 1] == name[i + 1..j];
      SplitAtFirst(rest, ',', j - i - 1);
    }
    var parts := Split(name, ',');
    assert parts[0] == name[..i] && parts[1] == name[i + 1..j];
    CleanedIsTrimmedAscii(Strip(name[i + 1..j]), ucd);
    CleanedIsTrimmedAscii(Strip(name[..i]), ucd);
  }

  /**
   * The candidate-building loop of main.py:114-152. The two halves of the
   * name go through `CleanString`; a first title segment without text is the
   * KeyError the `try` swallows.
   */
  method BuildCandidates(results: seq<Member>, domain: string, ucd: UnicodeData)
    returns (candidates: seq<Candidate>)
    ensures candidates == Candidates(results, domain, ucd)
  {
    candidates := [];
    for n := 0 to |results|
      invariant candidates == Candidates(results[..n], domain, ucd)
    {
      assert results[..n + 1][..n] == results[..n];
      var member := results[n];
      var emoji := EmojiOf(member.icon);
      var notInQuestion := emoji != Some(QuestionMark);
      var putzRelation := member.putzplan;
      if notInQuestion && |putzRelation| == 0 {
        if member.title.None? || |member.title.value| == 0 {
          continue;
        }
        match member.title.value[0]
        case OtherRun =>
        case TextRun(fullNameRaw) =>
          if ',' in fullNameRaw {
            var parts := Split(fullNameRaw, ',');
            SplitCountsComma(fullNameRaw);
            var lastName := CleanString(Strip(parts[0]), ucd);
            var firstName := CleanString(Strip(parts[1]), ucd);
            var email := firstName + "." + lastName + "@" + domain;
            candidates := candidates + [Candidate(member.id, fullNameRaw, email)];
          }
      }
    }
    assert results[..|results|] == results;
  }
}
