# Putzplan lottery — a Dafny model

`main.py` of the habitat putzbot runs a weekly cleaning-rota lottery. It asks
Notion for the association's active members. It keeps the members who are not
marked ❓ and have never been on the rota (their `Putzplan` relation is
empty). It derives each one's e-mail address from the "Lastname, Firstname"
page title and draws up to four of them at random. It then creates a
"Putzcrew KW <n>" page for the coming week that relates the people drawn, and
announces them in Slack. A person is tagged by Slack mention, or by name when
Slack does not know their address.

The project models that pipeline and `clean_string`, the normaliser behind the
e-mail addresses:

- `pystr.dfy` (module `PyStr`): the Python string operations the script uses:
  `str.isspace`, `strip`, `split` on one character, `join`, and decimal
  rendering. It proves split/join round trips and where `split`'s pieces lie
  in the string.
- `normalize.dfy` (module `Normalize`): `clean_string`. Its `for` loop over
  the replacement table is the method `ReplaceUmlauts`. That loop is proved
  equal to a one-pass transliteration, and the whole function to yield
  trimmed ASCII. The two tables of the Unicode database it relies on, the
  lower-case mapping and the NFKD decomposition, are a parameter.
- `members.dfy` (module `Members`): member records, the per-member decision
  of the candidate loop, the e-mail format, and the loop itself
  (`BuildCandidates`). Candidates are proved to be exactly the eligible
  members, in input order.
- `lottery.dfy` (module `Lottery`): `random.sample` as a draw of distinct
  positions, the page payload, the Slack tags and the message. It also holds
  the whole run (`RunLottery`) with its outcome (query failed, nobody
  eligible, page creation failed, or announced).
- `wrappers.dfy` (module `Wrappers`): `Option`.

The HTTP status codes of the two Notion requests, the query's result list, the
ISO week number and the Slack e-mail lookup are inputs of the model. Which
positions `random.sample` picks is left open: the model fixes only what any
sample satisfies.

Three consequences of how `main.py` is written are worth knowing:

- There is no update path. Every run creates a new page with up to four
  people and sends one fixed message; an existing week record is never read,
  merged or reworded.
- `clean_string` is not idempotent. NFKD can turn a character that has no
  lower-case form into a capital ASCII letter (ℌ becomes H), and a second
  pass lower-cases it (`Normalize.CleanedNotIdempotent`).
- The exclusion rule is "ever assigned": anyone whose `Putzplan` relation is
  non-empty is left out, whichever week the relation points to.

## Model

| member | source | states |
|---|---|---|
| `PyStr.StripIsMaximalTrim` | main.py:33 | `strip()` cuts exactly the maximal whitespace runs at both ends: everything cut is whitespace and the result neither starts nor ends with whitespace |
| `PyStr.JoinSplit` | main.py:141 | joining the pieces of `name.split(',')` with "," gives the name back |
| `PyStr.SplitPieces` | main.py:141 | `split(',')` yields one piece more than there are commas, and no piece holds a comma |
| `PyStr.SplitAtFirst` | main.py:141-143 | `parts[0]` is the text before the first comma; the later pieces split what follows it |
| `PyStr.SplitLast` | main.py:195 | `split(',')[-1]` is the comma-free suffix after the last comma (the whole string when there is none) |
| `PyStr.SplitJoin` | main.py:198 | splitting a join recovers the parts when no part holds the separator |
| `PyStr.Join` | main.py:198 | definition of `sep.join(parts)`; `PyStr.JoinSplit`, `PyStr.SplitJoin` and `Lottery.AnnouncementListsTags` state its round trips with `split` |
| `PyStr.Decimal` | main.py:175 | the `{kw}` rendering of a week number is at least one character; `PyStr.DecimalRoundTrip` states that it is the number's digits |
| `PyStr.DecimalRoundTrip` | main.py:175 | the week number is rendered as digits without a leading zero that read back as the number |
| `PyStr.IsSpace` | main.py:33 | definition: the characters Python's `str.isspace` accepts, which `strip()` removes |
| `PyStr.Strip` | main.py:33 | definition of `strip()`; its contract is `PyStr.StripIsMaximalTrim` |
| `PyStr.Split` | main.py:141 | `split(',')` always yields at least one piece; `PyStr.SplitPieces`, `PyStr.JoinSplit` and `PyStr.SplitAtFirst` state the rest |
| `Normalize.Lower` | main.py:28 | definition of the model of `text.lower()`: each character's full lower-case mapping from the Unicode data (no final-sigma rule, see "Left out"); `Normalize.LowerAppend` and `Normalize.LowerIdempotent` state its laws |
| `Normalize.LowerAppend` | main.py:28 | the modelled lower-casing works character by character: the lower-case form of a concatenation is the concatenation of the lower-case forms |
| `Normalize.LowerIdempotent` | main.py:28 | when the lower-case mapping is stable, lower-casing twice is lower-casing once |
| `Normalize.ReplaceAll` | main.py:31 | definition of `text.replace(k, v)` for one character `k`; `Normalize.ReplaceUmlauts` and `Normalize.TransliterateRemovesUmlauts` state what the table of replacements does |
| `Normalize.AsciiOnly` | main.py:32 | `.encode('ASCII', 'ignore').decode('utf-8')`: the result is ASCII only and no longer than the input |
| `Normalize.AsciiFold` | main.py:32 | NFKD followed by that encoding: the result is ASCII only; `Normalize.AsciiFoldOfAscii` shows ASCII text passes unchanged |
| `Normalize.Cleaned` | main.py:27-33 | definition of the value clean_string returns; `Normalize.CleanedIsTrimmedAscii` and the lemmas below state its properties |
| `Normalize.ReplaceUmlauts` | main.py:29-31 | the loop of one `replace` per table entry, in table order, equals replacing ä ö ü ß by ae oe ue ss in one simultaneous pass |
| `Normalize.TransliterateRemovesUmlauts` | main.py:29-31 | after the replacements no ä ö ü ß is left, and a text without them is unchanged |
| `Normalize.CleanString` | main.py:27-33 | clean_string returns the lower-cased, transliterated, NFKD-folded and stripped text, which is pure ASCII with no whitespace at either end |
| `Normalize.CleanedIsTrimmedAscii` | main.py:32-33 | the cleaned text is ASCII only and has no leading or trailing whitespace |
| `Normalize.CleanedIgnoresCase` | main.py:28-31 | lower-casing happens first, so a text and its lower-cased form clean to the same token |
| `Normalize.CapitalsBecomeDigraphs` | main.py:28-31 | because lower-casing comes first, Ä Ö Ü ẞ also become ae oe ue ss |
| `Normalize.CleanedCapitalUmlaut` | main.py:28-31 | "MÜLLER" cleans to "mueller" |
| `Normalize.CleanedCaron` | main.py:28-32 | "Č" cleans to "c": lower-cased to č, whose caron NFKD splits off and the ASCII encoding drops |
| `Normalize.CleanedFixesTokens` | main.py:27-33 | a token that is already lower-case, stripped ASCII is returned unchanged |
| `Normalize.SampleUnicodeIsConsistent` | main.py:28-32 | the sample Unicode tables meet what the lemmas assume of the database: ASCII as in every Unicode version, Ä Ö Ü ẞ lower-case to ä ö ü ß, lower-case forms are stable |
| `Normalize.CleanedNotIdempotent` | main.py:28-32 | cleaning twice can differ from cleaning once: "ℌ" cleans to "H", which cleans to "h" |
| `Members.EmojiOf` | main.py:117-121 | the icon has an emoji exactly when it is an emoji icon, and then it is that icon's emoji; so the emoji is ❓ exactly when the icon is the ❓ emoji icon |
| `Members.Email` | main.py:140-144 | definition of the address; its contract: it ends in "@" + domain and everything before that is ASCII (`Members.EmailFromNameHalves` states the halves) |
| `Members.Address` | main.py:144 | the f-string `"{first}.{last}@{domain}"` on ASCII tokens ends in "@" + domain with an ASCII local part |
| `Members.Classify` | main.py:116-152 | the verdict of the loop body: ❓ first, then a non-empty Putzplan relation, each exactly in its case; an accepted member keeps its id and has a first title segment of text holding a comma, which is the candidate's name |
| `Members.Candidates` | main.py:114-152 | definition: the candidates the verdicts keep, in member order; `Members.CandidatesAreEligibleInOrder` states what they are |
| `Members.AcceptedIffEligible` | main.py:117-150 | a member becomes a candidate if and only if its emoji is not ❓, its Putzplan relation is empty, its title is present and non-empty, the first segment is text and that text holds a comma; the candidate copies the id, takes that text as name and gets the derived e-mail |
| `Members.NoCommaIsDropped` | main.py:140-150 | a member whose name has no comma is dropped, not given a fallback address |
| `Members.CandidatesAreEligibleInOrder` | main.py:114-152 | the candidates are exactly the eligible members, in input order: the j-th candidate comes from the j-th eligible position, and every eligible position is used |
| `Members.AssignedNeverCandidate` | main.py:128-131 | with unique member ids, no candidate has the id of a member whose Putzplan relation is non-empty |
| `Members.CandidateIdsDistinct` | main.py:146-150 | members with distinct ids give candidates with distinct ids |
| `Members.EmailFromNameHalves` | main.py:140-144 | the address is clean(text between first and second comma) + "." + clean(text before the first comma) + "@" + domain, with both halves ASCII |
| `Members.BuildCandidates` | main.py:114-152 | the loop with its `continue`, `try` and append builds exactly the candidate list above |
| `Lottery.UnusedPositionExists` | main.py:166 | while fewer than all positions are drawn, an unused one remains, so the draw can go on |
| `Lottery.Sample` | main.py:166 | `random.sample(candidates, k)` returns k distinct positions of the candidate list and the candidates there, in draw order |
| `Lottery.SampleIsSubsetWithoutRepeats` | main.py:166 | the selection has k members, all taken from the candidates, none twice when ids are distinct |
| `Lottery.WeekTitle` | main.py:175 | definition of the page title; its contract is `Lottery.WeekTitleNamesNextWeek` |
| `Lottery.CrewIds` | main.py:176 | definition of the page relation, the ids of the selected people in order; `Lottery.RunCrew` states what they are |
| `Lottery.PagePayload` | main.py:172-178 | definition of `new_page_data`: the rota data source as parent, the week title and the selected ids; `Lottery.RunCrew` states its content for a run |
| `Lottery.WeekTitleNamesNextWeek` | main.py:169-175 | the page title is "Putzcrew KW " followed by the digits of the ISO week plus one, with no wrap-around (week 53 gives KW 54) |
| `Lottery.SlackTagsOnePerPerson` | main.py:188-196 | there is one tag per selected person, in selection order |
| `Lottery.BuildSlackTags` | main.py:188-196 | the tag loop builds exactly that list of tags |
| `Lottery.FallbackTag` | main.py:195 | the fallback tag holds no comma and has no whitespace at either end |
| `Lottery.SlackTag` | main.py:190-196 | definition of one person's tag; its contract is `Lottery.SlackTagShape` |
| `Lottery.SlackTagShape` | main.py:190-196 | a tag is `<@id>` exactly when the lookup yields a non-empty id, otherwise the stripped, comma-free text after the name's last comma |
| `Lottery.FallbackUsesLastPiece` | main.py:195 | for a name with exactly one comma the fallback tag is the stripped second piece, the text the e-mail's first name comes from |
| `Lottery.FallbackDiffersFromEmailName` | main.py:195 | for "Last, First, Suffix" the split gives [Last, First, Suffix]: the e-mail uses First but the fallback tag is the stripped Suffix |
| `Lottery.TagsFollowCrew` | main.py:176-196 | the k-th tag is the Slack tag of the candidate whose id is the k-th id of the page relation |
| `Lottery.Header` | main.py:198 | definition of the fixed part of the f-string in front of the tags; `Lottery.RunMessage` states that the message is this header followed by the tags |
| `Lottery.Announcement` | main.py:198 | definition of the message; `Lottery.AnnouncementListsTags` and `Lottery.RunMessage` state its content |
| `Lottery.AnnouncementListsTags` | main.py:198 | the tags are joined by ", " recoverably: when no tag holds a comma, splitting at commas gives the tags back with one leading space after the first |
| `Lottery.Run` | main.py:108-198 | the outcome is "query failed" exactly when the query did not answer 200, and a message is only posted after the page creation answered 200 |
| `Lottery.RunLottery` | main.py:108-198 | the run's outcome is that of the specification function `Run` for a valid draw of min(\|candidates\|, 4) distinct positions |
| `Lottery.RunStopsEarly` | main.py:108-185 | a failed query stops the run; with no candidates nothing is drawn, created or posted; a message is posted exactly when the page was created |
| `Lottery.RunCrew` | main.py:166-178 | the created page has the rota data source as parent, the next week's title and min(\|candidates\|, 4) related ids, each the id of an eligible member, none twice when member ids are unique |
| `Lottery.CrewOfDraw` | main.py:166-176 | the page relation has one id per pick, the id of the candidate at that position, none twice when candidate ids are distinct |
| `Lottery.AnnouncementNamesCrew` | main.py:188-198 | for any draw, the message is the header followed by one tag per related id, in order, each the tag of the candidate with that id |
| `Lottery.RunMessage` | main.py:188-198 | the message is the header for the new week number followed by one tag per crew member, in crew order, joined with ", " |

## Left out

- Configuration from the environment and the Notion headers (main.py:10-24). They are process state with no logic; the domain and the rota data source id are parameters.
- The member query's filter (main.py:49-106). It is a fixed JSON document that Notion evaluates; the model receives the filtered results.
- The HTTP requests themselves (main.py:108, main.py:180). Only their status codes are inputs, and only "200 or not" matters, as in the source. The error texts that are printed are not modelled.
- The Slack client (main.py:24, main.py:36-41, main.py:200-204). The e-mail lookup is a parameter of type `string -> Option<string>`, with `None` for a `SlackApiError`. Posting the message is the end of the run: a failure to post is only printed, so it changes nothing the model observes.
- The randomness of `random.sample`. The model fixes size, range and distinctness of the picks, not their distribution.
- Lottery.Sample: does not state that every candidate is equally likely to be drawn, because the model has no probabilities.
- The Unicode database behind `str.lower` and `unicodedata.normalize('NFKD', ...)`. It is the parameter `ucd` of type `UnicodeData`, giving each character's full lower-case mapping and its decomposition; lower-casing is that mapping applied to each character in turn. The lemmas that need facts about it say so in their `requires`: ASCII behaves as in every Unicode version, Ä Ö Ü ẞ lower-case to ä ö ü ß, and lower-case forms are stable. `SampleUnicode` holds genuine entries (ASCII, Latin-1, Latin Extended-A with İ, ẞ, the Kelvin sign; four decompositions) for the worked examples and is proved to meet those facts.
- Normalize.Lower: does not model Python's final-sigma rule, which lower-cases Σ to ς rather than σ at the end of a word ('ΟΔΟΣ'.lower() ends in ς), because a per-character table cannot depend on the neighbouring characters. `Normalize.Cleaned` is unaffected: neither σ nor ς has an ASCII decomposition, so the ASCII encoding drops both.
- Normalize.LowerAppend: the law holds of the modelled lower-casing but not of Python's `str.lower` for a word-final Σ ('Ο' + 'Σ' lower-cases to 'οσ', 'ΟΣ' to 'ος'), for the same reason; for `Normalize.Cleaned` the difference disappears in the ASCII encoding.
- `datetime.now().isocalendar()` (main.py:169). The ISO week is a parameter.
- All `print` output, including the list of candidates (main.py:160-163) and the warning of the `except` branch.
- Exceptions other than the one the `try` catches in practice: a first title segment without a `text` entry (a mention or an equation). Missing `icon` or `properties` keys (main.py:117, main.py:124, outside the `try`) would abort the script. So would a missing `id`: it is read inside the `try` (main.py:147), but the handler reads it again for its message (main.py:152) and raises out of the `except`. Notion always sends these keys, and the `Member` datatype always has them.
- The `next(...)` search for the title property. The model receives its result: the title segments, or `None` when no property has type `title`.
