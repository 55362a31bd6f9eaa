# EMIAS slot tracker: a verified model of its core

The system is a Telegram bot with a companion web panel for the Moscow EMIAS
clinic-booking service. A user picks a doctor or a service cabinet and writes
when they can come, for example `понедельник: 08:00-12:00, сегодня 10:00-14:00`.
The bot then polls the doctor's schedule and reports new free slots that fit
those rules. With auto-booking switched on, it books the first slot that fits
(or moves an existing appointment there) instead. This project models, in
Dafny, the logic on which that decision rests:

- **Rule parsing** (`rules_parser.py`, and the older string-rule readers in
  `bot.py`):
  - free text becomes `{type, value, timeRanges}` records;
  - time ranges are put into `HH:MM-HH:MM` form;
  - `сегодня`/`завтра` are frozen to ISO dates at parse time;
  - stored legacy rules are normalised and re-frozen once.
  Modules `RulesParser` and `StoredRules`.
- **Matching and selection** (`bot.py`):
  - time windows are inclusive at both ends and wrap past midnight;
  - a slot matches if any rule matches it;
  - the three slot selectors (filter, collect, find the first) return only
    future slots, sorted or earliest.
  Modules `RuleMatch` and `SlotSelect`.
- **Schedule snapshots** (`bot.py`): a payload becomes a set of
  `YYYY-MM-DD HH:MM` keys, and two snapshots are compared by set difference.
  Module `Schedule`.
- **The tracking pass** (`check_schedule_updates` in `bot.py`), as a class over
  the tracking record and the stored baseline:
  - the old baseline is read before the fetch, which may write a row of its own
    (even when it returns no payload, or a payload other than the one it saved);
  - the auto-booking branch refreshes the baseline and makes at most one
    booking attempt, whose result is the `Booking.BookResult` of `book_appointment`
    (a bare `False` or an exception there ends the pass);
  - the manual branch notifies exactly when a relevant slot appeared, and fails
    on the unique key when the baseline was missing and the fetch wrote one.
  Module `Tracking`.
- **Booking** (`book_appointment` in `bot.py`):
  - it moves an appointment when one is known for the speciality's alias group,
    and creates one otherwise;
  - creating is gated by the referral policy;
  - after a success it upserts the link for every code of the alias group.
  Module `Booking`.
- **Service shift** (`service_shift.py`): allowed and forbidden half-open
  windows, and the earliest passing slot over all cabinets of a clinic.
  Module `ServiceShift`.
- **Speciality aliases and name updates** (`database.py`): module
  `Specialities`.
- **Web rule utilities** (`web_app.py`): interval merging, rule merging,
  per-day coverage, form-value coercion and the rule append of `add_track`.
  Modules `WebIntervals`, `WebRules`, `WebCoverage` and `WebForms`.

Python's own semantics are modelled where the code depends on them, in
supporting modules:

- `PyText`: `str.strip`, `split`, `lower` and `int()`;
- `Calendar`: civil dates, `weekday()`, `strftime`, `strptime` with its
  backtracking, and `fromisoformat`;
- `Sorting`: the stable `sorted`;
- `Sequences`: list comprehensions as flat maps.

Imperative code is modelled as methods with loops, proved against specification
functions; pure code is modelled as functions with lemmas. The wall clock is the
parameter `now`, and upstream responses (the fetched schedule, API lookups,
booking results) are parameters too.

## Model

| member | source | states |
|---|---|---|
| RulesParser.UnifyDashes | rules_parser.py:14 | every `-`, `–` and `—` becomes `-`, every other character is kept, the length does not change |
| RulesParser.UnifyDashesFacts | rules_parser.py:12-14 | after unification no long dash is left; stripped text stays stripped; text without long dashes is unchanged |
| RulesParser.TightenIsTight | rules_parser.py:16 | after `re.sub(r'\s*-\s*', '-', …)` no whitespace is left beside any `-` |
| RulesParser.TightenOfTight | rules_parser.py:16 | text with no whitespace beside a dash is left as it is |
| RulesParser.TightenKeepsStripped | rules_parser.py:12-16 | removing the blanks around dashes keeps stripped text stripped |
| RulesParser.TightenNoLongDashes | rules_parser.py:14-16 | the second substitution introduces no long dash |
| RulesParser.MatchCompact | rules_parser.py:18 | a match of `^(\d{1,2}):?(\d{2})\s*-\s*(\d{1,2}):?(\d{2})$` yields groups of 1-2, 2, 1-2 and 2 ASCII digits |
| RulesParser.MatchCompactOf | rules_parser.py:18-20 | on `h1m1-h2m2` with digit groups of those widths the match returns exactly those four groups |
| RulesParser.CanonicalOf | rules_parser.py:20-23 | the rebuilt text `f"{int(h):02d}:{m}-…"` is always a canonical `HH:MM-HH:MM` |
| RulesParser.NormalizeTimeRange | rules_parser.py:9-24 | empty text comes back unchanged; any result is stripped, has only `-` dashes and no blank beside them |
| RulesParser.TidyOfTidy | rules_parser.py:12-16 | stripping and both substitutions leave already-tidy text alone |
| RulesParser.NormalizeCanonical | rules_parser.py:9-24 | a canonical `HH:MM-HH:MM` is a fixed point of `normalize_time_range` |
| RulesParser.CanonicalOfPieces | rules_parser.py:20-23 | the four fields of a canonical range are well formed and rebuild that range |
| RulesParser.NormalizeTimeRangeIdempotent | rules_parser.py:9-24 | normalising twice equals normalising once, for every input text |
| RulesParser.NormalizePadsHours | rules_parser.py:18-23 | `9:00-10:00` (any one- or two-digit hours, two-digit minutes) becomes zero-padded `09:00-10:00` |
| RulesParser.CalendarDate | rules_parser.py:43-46 | `datetime(y, m, d)` succeeds exactly for a real calendar date, and then gives that date |
| RulesParser.MatchDayDotMonth | rules_parser.py:49-51 | the `DD.MM` regex yields one or two ASCII digits on each side of the dot |
| RulesParser.ParseDateRule | rules_parser.py:27-79 | empty text gives None; a result is a real date; ISO-shaped text gives exactly the ISO parse; any other result uses `default_year or now.year` |
| RulesParser.ParseDateRuleIso | rules_parser.py:39-46 | the ISO text of a real date parses back to that date, whatever the default year |
| RulesParser.ParseDateRuleDayDotMonth | rules_parser.py:48-56 | `D.M` text gives that day and month in the default year, or None when no such date exists |
| RulesParser.ParseDateRuleMonthName | rules_parser.py:58-77 | `D <month name>` gives that day of the named month in the default year, or None when no such date exists |
| RulesParser.ParseDateRuleDottedWithYear | rules_parser.py:48-79 | `DD.MM.YYYY` is not parsed (it is neither `DD.MM` nor two tokens) |
| RulesParser.StrippedNonEmpty | rules_parser.py:182 | the kept pieces are non-empty and stripped, and there are no more of them than pieces |
| RulesParser.ParsePart | rules_parser.py:108-188 | each part becomes exactly one rule, of kind `weekday` (with a weekday name as value) or `date` |
| RulesParser.UndatedPart | rules_parser.py:152-188 | the undated branches also give a `weekday` rule with a weekday value, or a `date` rule |
| RulesParser.Finalize | rules_parser.py:193-207 | the second pass keeps the kind and the number of time ranges of a rule |
| RulesParser.FinalizeAll | rules_parser.py:193-207 | every rule is finalised in place, in order, and none is added or removed |
| RulesParser.TrackingRules | rules_parser.py:101-106 | empty text gives `[]`; otherwise there is one rule per comma-separated part |
| RulesParser.ParsePieces | rules_parser.py:106-188 | the first loop appends exactly the parsed rule of each part, in order |
| RulesParser.FinalizeRules | rules_parser.py:190-207 | the second loop rewrites every rule to its finalised form |
| RulesParser.ParseUserTrackingInput | rules_parser.py:82-209 | the method returns the two passes over the comma-separated parts |
| RulesParser.FrozenValue | rules_parser.py:194-199 | the value after lower-casing and freezing is stripped lower-case text, and in a date rule it is never `сегодня` or `завтра` |
| RulesParser.FinalValue | rules_parser.py:194-207 | a final value is stripped and lower-case; a date value is not relative, and the date parser leaves it unchanged |
| RulesParser.FinalizeSettles | rules_parser.py:190-207 | a first-pass rule becomes settled: known kind, plain value, no relative word, settled date, normalised ranges |
| RulesParser.FinalizeIdempotent | rules_parser.py:194-207 | finalising a finalised rule changes nothing |
| RulesParser.FinalizeKeepsSettledValue | rules_parser.py:194-207 | a plain, non-relative, settled value passes the second pass unchanged |
| RulesParser.FinalizeFreezesToday | rules_parser.py:197-199 | `сегодня` in a date rule becomes today's ISO date, with the ranges normalised |
| RulesParser.FinalizeFreezesTomorrow | rules_parser.py:197-199 | `завтра` in a date rule becomes tomorrow's ISO date, with the ranges normalised |
| RulesParser.FinalizeKeepsWeekday | rules_parser.py:200-202 | a weekday rule keeps its weekday name: it stays recurring |
| RulesParser.TrackingRulesSettled | rules_parser.py:82-209 | every rule returned is settled |
| RulesParser.TrackingRulesStable | rules_parser.py:190-207 | re-running the second pass on the output, on the same day, gives the output back |
| RulesParser.TrackingSingle | rules_parser.py:106-108 | text without a comma gives exactly the one finalised rule of that text |
| RulesParser.FinalizeIsoRule | rules_parser.py:193-207 | a date rule holding an ISO date and canonical ranges is already final |
| RulesParser.TrackingIsoDateWithRange | rules_parser.py:116-126 | `2025-10-10 16:00-17:30` gives one date rule with that date and that range |
| RulesParser.TrackingWeekdayColon | rules_parser.py:166-188 | `понедельник: 08:00-12:00` gives one weekday rule with that range |
| RulesParser.TrackingOneRule | rules_parser.py:106-108 | one comma-free part whose rule is already final gives exactly that rule |
| RulesParser.TrackingDayWordRange | rules_parser.py:152-165 | `<day word> HH:MM-HH:MM` gives one rule for that word, frozen when the word is relative |
| RuleMatch.IntClock | bot.py:2831-2836 | `time(int(h), int(m))` gives a time of day below 24:00, or None where `int()` or `time()` raises |
| RuleMatch.ParseTimeRange | bot.py:2817-2843 | empty text gives None; any window it gives has both ends inside one day |
| RuleMatch.DashedWindow | bot.py:2822-2828 | the dash branch gives a window inside the day, or None where either `fromisoformat` raises |
| RuleMatch.UndashedWindow | bot.py:2829-2843 | the four-field and single-time fallbacks give a window inside the day, or None |
| RuleMatch.TimeMatchesRanges | bot.py:2846-2848 | no ranges admits every time |
| RuleMatch.TimeMatchesRangesSpec | bot.py:2846-2860 | a time matches iff there are no ranges or some range parses to a window that admits it; unparsable ranges are skipped |
| RuleMatch.AdmitsIsArc | bot.py:2853-2858 | a window admits `t` iff `t` lies on the clock arc from start to end, so a window past midnight is one arc, not two |
| RuleMatch.AdmitsEnds | bot.py:2853-2858 | both ends of any window are admitted (the test is inclusive) |
| RuleMatch.ParseTimeRangeDashed | bot.py:2819-2828 | text that splits once at a dash is decided by its two halves alone |
| RuleMatch.ParseClockRange | bot.py:2817-2828 | the text `HH:MM-HH:MM` of two real clock times parses to the window between them |
| RuleMatch.ClockWindowHalf | bot.py:2825-2826 | `fromisoformat` of `HH:MM` is that time of day |
| RuleMatch.BadHeadUnparsed | bot.py:2822-2828 | a range whose part before the first dash is not an ISO time gives no window (the fallbacks are not reached) |
| RuleMatch.OneDigitHourUnparsed | bot.py:2822-2828 | `9:00-…` gives no window: `fromisoformat` refuses a one-digit hour |
| RuleMatch.CleanRange | bot.py:1927 | after the three replacements no space and no en or em dash is left |
| RuleMatch.NormalizeTimeIdempotent | bot.py:1908-1922 | on dash-free text `normalize_time` writes no dash and applying it twice is applying it once |
| RuleMatch.NormalizeTimeRangeIdempotent | bot.py:1925-1937 | the bot's `normalize_time_range` applied twice is applied once, for every input |
| RuleMatch.WeekdayIndexOfNames | bot.py:3009-3011 | the bot's weekday index and the parser's weekday list name the same seven days in the same order |
| RuleMatch.BotMonthsAreWords | bot.py:2891-2892 | every month name the bot knows is one Cyrillic word with a month number 1-12 |
| RuleMatch.StrptimeDate | bot.py:2873-2877 | a date from either strptime format is a real calendar date |
| RuleMatch.StrptimeDateNone | bot.py:2873-2877 | text with no dash, and no dot or fewer than eight characters, matches neither strptime format |
| RuleMatch.NonEmptyPieces | bot.py:2881 | dropping empty pieces never adds any, and keeps a list with no empty piece as it is |
| RuleMatch.DottedDate | bot.py:2880-2888 | the dotted fallback gives a real date or None |
| RuleMatch.TokenDate | bot.py:2889-2900 | the `D месяц [Y]` fallback gives a real date or None |
| RuleMatch.ParseDateRule | bot.py:2863-2901 | empty text gives None; any result is a real date |
| RuleMatch.ParseDateRuleRelative | bot.py:2865-2870 | `сегодня` and `завтра`, in any case and with blanks around them, are today and tomorrow |
| RuleMatch.ParseDateRuleIso | bot.py:2873-2875 | the ISO text of a real date is that date |
| RuleMatch.ParseDateRuleFallback | bot.py:2879-2901 | past the relative words and strptime, the dotted fallback decides when it gives a date, the token fallback otherwise |
| RuleMatch.ParseDateRuleDayMonth | bot.py:2879-2888 | `D.M` is that day and month in the reference year, or None when that is no date |
| RuleMatch.ParseDateRuleMonth | bot.py:2889-2900 | `D месяц` is that day of that month in the reference year |
| RuleMatch.ParseDateRuleMonthYear | bot.py:2889-2900 | `D месяц Y` uses year `Y`, except that year 0 falls back to the reference year (`year or reference_year`) |
| RuleMatch.SlotMinute | bot.py:3000-3002 | the slot's time with seconds dropped is a whole minute of the day |
| RuleMatch.KindWords | bot.py:3005 | the four rule kinds are their own lower case, so a kind is recognised whatever its case |
| RuleMatch.SlotMatches | bot.py:2996-2998 | no rules accept every slot |
| RuleMatch.AnyRuleMatchesSpec | bot.py:3004-3036 | the loop returns true iff some rule accepts the slot on its day and its windows |
| RuleMatch.AcceptingRule | bot.py:3004-3036 | when the loop accepts, it names a rule that accepts the slot |
| RuleMatch.AcceptedByRule | bot.py:3004-3036 | one accepting rule anywhere in the list is enough |
| RuleMatch.SlotMatchesSpec | bot.py:2996-3036 | a slot matches iff there are no rules or one of them accepts it |
| RuleMatch.AnyRuleMatchesAppend | bot.py:3004-3036 | the rules of a concatenation accept a slot iff either part does |
| RuleMatch.WeekdayRuleMatches | bot.py:3009-3014 | a weekday rule accepts exactly the slots on that weekday whose time its windows admit |
| RuleMatch.IsoDateRuleMatches | bot.py:3015-3020 | a date rule holding ISO text accepts exactly the slots on that date whose time its windows admit |
| RuleMatch.RelativeRuleMatches | bot.py:3021-3031 | `relative_date` rules follow the clock: `сегодня` accepts today's slots and `завтра` tomorrow's |
| RuleMatch.AnyRuleMatchesTime | bot.py:3032-3034 | an `any` rule constrains only the time of day |
| RuleMatch.FrozenTodayMatches | bot.py:3015-3020 | a date rule holding `сегодня` matches exactly like the date rule frozen to today's ISO date |
| RuleMatch.TodayDateRuleMatches | bot.py:3015-3020 | a date rule holding `сегодня` accepts the slots of today whose time its windows admit |
| StoredRules.ClockAt | bot.py:2916 | `\d{1,2}[:.]\d{2}` matched at `i` spans 4 or 5 characters inside the text and starts with a digit |
| StoredRules.OptSpace | bot.py:2916 | `\s?` takes at most one character |
| StoredRules.RangeAt | bot.py:2916 | a match of the range pattern at `i` is two clock matches, in order, separated by a dash, inside the text |
| StoredRules.SearchRange | bot.py:2916 | `re.search` reports a position at or after the start where the pattern really matches |
| StoredRules.SearchRangeLeftmost | bot.py:2916 | the match `re.search` reports is the leftmost one; when it reports none, the pattern matches nowhere |
| StoredRules.SearchStops | bot.py:2916 | the search ends at the end of the text or at the first position that matches |
| StoredRules.SearchFinds | bot.py:2916 | after a stretch with no match, the search finds the match that follows it |
| StoredRules.RangeAtCanonical | bot.py:2916-2919 | a canonical `HH:MM-HH:MM` at the end of the text is a match there and is stored unchanged |
| StoredRules.WordBlankNoMatch | bot.py:2916 | no match starts inside a Cyrillic word or the blank after it |
| StoredRules.SearchDayRange | bot.py:2916-2921 | in `<day word> HH:MM-HH:MM` the search finds the range right after the blank, and the prefix is the word |
| StoredRules.DatePrefix | bot.py:2936-2968 | a date read from the prefix (strptime, `DD.MM`, `D месяц`) is a real calendar date |
| StoredRules.ClassifyPrefix | bot.py:2926-2968 | the kind is one of the four; `weekday` iff the prefix is a weekday name, `relative_date` iff it is `сегодня`/`завтра`, with the prefix as value; a `date` value is ISO text; an `any` rule has an empty value |
| StoredRules.KnownKindLower | bot.py:2926-2968 | a known kind is non-empty and its own lower case |
| StoredRules.ParseStringRule | bot.py:2905-2973 | a rule comes back iff the stripped text is non-empty; it has a known kind, at most one range, an empty value for `any` and ISO text for `date` |
| StoredRules.ParseStringRuleFound | bot.py:2915-2921 | once a range is found, the rule is the classified prefix before it with that one range |
| StoredRules.ClassifyDayWord | bot.py:2926-2931 | a day word classifies as itself: a weekday or a relative day |
| StoredRules.ParseStringRuleWordRange | bot.py:2905-2973 | legacy `<word> HH:MM-HH:MM` is that range under the classified word |
| StoredRules.ParseStringRuleDayRange | bot.py:2905-2973 | `завтра 11:20-19:00` and `понедельник 08:00-12:00` (any day word, any canonical range) give the rule the docstring promises |
| StoredRules.NormalizeEntry | bot.py:2982-2992 | a structured entry keeps its value and ranges, with its type lower-cased (`any` when empty); a text entry gives a rule iff it is not blank; every type is lower-case |
| StoredRules.Normalizations | bot.py:2981-2992 | one normalisation per stored entry, each with a lower-case type |
| StoredRules.NormalizationsAt | bot.py:2981-2992 | the `k`-th normalisation is that of the `k`-th entry |
| StoredRules.Somes | bot.py:2990-2991 | the present rules keep their order and come from the list |
| StoredRules.NormalizedAll | bot.py:2976-2993 | no more rules than entries, and every type lower-case and non-empty |
| StoredRules.NormalizeRules | bot.py:2976-2993 | the loop returns exactly the normalised entries, blank texts dropped |
| StoredRules.AsStored | bot.py:2982-2987 | structured rules stored back as entries, one for one |
| StoredRules.NormalizedOfNormal | bot.py:2982-2987 | structured rules with lower-case, non-empty types come through normalisation unchanged |
| StoredRules.NormalizeIdempotent | bot.py:2976-2993 | normalising the normalised rules changes nothing |
| StoredRules.NormalizedDictsLength | bot.py:2982-2987 | a list of structured rules loses no entry and keeps each value and range list in place |
| StoredRules.RewriteDate | bot.py:2043-2055 | a rewrite date is real; `сегодня`/`завтра` in a date or relative rule always gets one; only date or relative rules are rewritten |
| StoredRules.FreezeEntry | bot.py:2035-2059 | text entries pass unchanged; ranges are kept; a relative entry is always rewritten and reported; a reported rewrite is an ISO date rule; otherwise the entry is unchanged or a tidied weekday rule |
| StoredRules.Frozen | bot.py:2035-2059 | the freeze loop builds one entry per stored entry |
| StoredRules.FrozenAt | bot.py:2035-2059 | each entry is frozen on its own, in place |
| StoredRules.Changed | bot.py:2046-2055 | the flag is set iff some entry was rewritten to an absolute date |
| StoredRules.FreezeRulesIfNeeded | bot.py:2027-2060 | the loop returns the frozen list when something changed (the old one otherwise) and whether it changed |
| StoredRules.DateEntryStable | bot.py:2051-2057 | a rule already holding an ISO date is neither rewritten nor reported |
| StoredRules.WeekdayEntryStable | bot.py:2048-2050 | a tidied weekday rule is kept and not reported |
| StoredRules.FreezeEntryStable | bot.py:2035-2059 | whatever one freeze step produces, a second step keeps and does not report |
| StoredRules.FrozenUnchanged | bot.py:2027-2060 | after a freeze, a second freeze finds nothing to rewrite |
| StoredRules.FreezeIdempotent | bot.py:2027-2060 | freezing twice is freezing once: the conversion is one-off |
| StoredRules.FreezeRulesAt | bot.py:2027-2060 | the freeze keeps length, text entries and every entry's ranges, keeps weekday rules on their weekday, and leaves no `сегодня`/`завтра` date |
| StoredRules.WeekdayStays | bot.py:2048-2050 | a weekday rule stays a recurring rule for the same weekday |
| StoredRules.SomesMatches | bot.py:2990-3036 | the present rules accept a slot iff some present entry does |
| StoredRules.SomesEmpty | bot.py:2990-2991 | no rule is present iff every entry is absent |
| StoredRules.DictMatches | bot.py:2982-3008 | a structured entry accepts a slot by its lowered type and value and its ranges |
| StoredRules.FreezeEntryMatches | bot.py:2035-2059 | under the clock it was frozen with, a frozen entry accepts exactly the slots the original did |
| StoredRules.FrozenAtMatches | bot.py:2035-2059 | the `k`-th entry is present and accepts a slot the same before and after the freeze |
| StoredRules.FreezeKeepsMatching | bot.py:2027-2060 | on the day it runs, the freeze does not change which slots the track accepts |
| StoredRules.SomesAgree | bot.py:2990-2991 | entries present together and accepting together give rule lists that accept together |
| StoredRules.Fresh | bot.py:1726-1731 | what the dedup loop appends comes from the new rules and has keys not yet present |
| StoredRules.AppendNewRules | bot.py:1718-1733 | the loop appends the fresh rules after the existing ones and counts them |
| StoredRules.FreshDistinct | bot.py:1726-1731 | no two appended rules share a key |
| StoredRules.FreshComplete | bot.py:1726-1731 | after the append every new rule's key is present |
| StoredRules.FreshOfKnown | bot.py:1726-1731 | nothing is appended when every key is already present |
| StoredRules.AppendNewRulesSpec | bot.py:1718-1733 | the existing list is a prefix of the result; each appended rule is a new rule with a new key; the appended rules have distinct keys; the key set is the union |
| StoredRules.AppendTwiceAddsNothing | bot.py:1718-1733 | sending the same batch twice adds nothing the second time |
| StoredRules.StrLeOrder | bot.py:1722 | `sorted()` on strings uses a total, antisymmetric order |
| StoredRules.KeyIgnoresRangeOrder | bot.py:1720-1723 | rules that list the same ranges in another order share a key |
| SlotSelect.LeastExists | bot.py:3043 | a finite, non-empty set of slot keys has a least key, so `sorted()` has a first element |
| SlotSelect.LeastAdded | bot.py:3043 | the least key of a set is the new key or the least of the rest |
| SlotSelect.SortedKeys | bot.py:3043 | `sorted(slots)` lists exactly the set's keys, ascending and without repeats |
| SlotSelect.FilterSlotsByRules | bot.py:3039-3051 | the result is ascending, and holds exactly the keys that read as `%Y-%m-%d %H:%M`, lie after now and are accepted by the rules |
| SlotSelect.KeepsSlotText | bot.py:3044-3050 | the key of a slot is kept iff its minute lies after now and the rules accept it |
| SlotSelect.MatchesIgnoreSeconds | bot.py:3000-3002 | the rules accept a slot iff they accept it with the seconds dropped |
| SlotSelect.Candidate | bot.py:3070-3090 | a slot is taken iff its start parses, lies after now and the rules accept it; it keeps its start and end texts |
| SlotSelect.Candidates | bot.py:3067-3090 | every collected slot has a real start, and there are no more than slots visited |
| SlotSelect.CandidatesSpec | bot.py:3067-3090 | a pick is collected iff some visited slot yields it |
| SlotSelect.CandidatesSnoc | bot.py:3069-3090 | one more visited slot appends its pick, if it yields one |
| SlotSelect.CandidatesAccepted | bot.py:3085-3088 | every collected pick lies after now and is accepted by the rules |
| SlotSelect.PickLeTotal | bot.py:3095 | ordering by start time is a total preorder |
| SlotSelect.Offers | bot.py:3096-3099 | one offer per sorted pick |
| SlotSelect.OffersAt | bot.py:3096-3099 | the offer at position `i` is the display text and ISO texts of the pick at position `i` |
| SlotSelect.SortedCandidates | bot.py:3092-3095 | every sorted pick has a real start time |
| SlotSelect.CollectMatchingSlots | bot.py:3054-3100 | the method returns the offers of the usable slots in start order |
| SlotSelect.CollectCandidates | bot.py:3067-3090 | the nested loops gather exactly the candidates, in visiting order |
| SlotSelect.CheckSlot | bot.py:3070-3088 | one loop body decides exactly the candidate of its slot |
| SlotSelect.OffersLoop | bot.py:3096-3099 | the formatting loop builds exactly the offers |
| SlotSelect.CollectSpec | bot.py:3054-3100 | the result is a permutation of the candidates, sorted by start, and every element is usable |
| SlotSelect.FindFirstMatchingSlot | bot.py:3103-3141 | the result is None iff there is no candidate, else the first candidate of least start (`<` keeps the earliest of equals) |
| SlotSelect.ConsiderPick | bot.py:3136-3137 | one step of `if not best or cmp_dt < best[0]` keeps `best` the first least pick so far |
| SlotSelect.FindIsHeadOfCollect | bot.py:3054-3141 | the first slot found is the head of the full collected list, and both are empty together |
| Schedule.SlotKey | bot.py:3152-3153 | a key is 16 characters with a space at position 10 |
| Schedule.ParseSchedulePayload | bot.py:3144-3155 | the nested loops build exactly the key set of the schedule, each key of the key shape |
| Schedule.SlotKeyIsSlotText | bot.py:3152-3153 | the text slice of an ISO start equals the `%Y-%m-%d %H:%M` text of the parsed time, so both ways of naming a slot agree |
| Schedule.IsoClockText | bot.py:3152-3153 | the first five characters of a parsed clock are its hour and minute, zero-padded |
| Schedule.ClockFields | bot.py:3152-3153 | the hour and minute fields of a parsed clock are the clock's own |
| Schedule.ClockOfSeconds | bot.py:3152-3153 | seconds since midnight split back into the hour and minute they were built from |
| Schedule.Compare | bot.py:3183-3213 | added and removed are the two set differences, disjoint; removing and then adding turns before into after; a change is reported iff the key sets differ |
| Schedule.CompareSelf | bot.py:3196-3200 | a schedule compared with itself shows no change |
| Schedule.CompareSwap | bot.py:3196-3197 | swapping the schedules swaps added and removed |
| Tracking.TrackRecord.constructor | bot.py:2348-2349 | a tracking record holds its doctor, its `active` and `auto_booking` flags and its stored rules |
| Tracking.BaselineStore.constructor | bot.py:2365-2367 | the saved schedule of each doctor, as the pass finds it |
| Tracking.BaselineStore.Save | emias_api.py:486-521 | the fetch's save sets the doctor's row to the fetched schedule, creating it when missing, and touches no other doctor |
| Tracking.BaselineStore.Insert | bot.py:2550-2556 | a new row succeeds exactly when the doctor has none, and then holds the schedule; otherwise the unique key refuses it and nothing changes |
| Tracking.BaselineStore.Update | bot.py:2554-2556 | the row read before the fetch gets the new schedule; no other doctor changes |
| Tracking.Relevant | bot.py:2563-2569 | the relevant keys are among the given ones, and every key the filter keeps is relevant |
| Tracking.ManualDecision | bot.py:2560-2617 | manual mode either sends a message or stays quiet |
| Tracking.ManualOutcome | bot.py:2549-2556 | the manual branch fails on the unique key exactly when the baseline was missing and the fetch wrote a row; otherwise it sends a message or stays quiet |
| Tracking.Decide | bot.py:2596-2617 | the decision is a message or quiet |
| Tracking.ManualDecisionSpec | bot.py:2560-2631 | a message is sent iff a relevant slot was added, or none of the old slots was relevant and some current slot is; it lists only relevant current slots and never none; the "new slots" wording lists exactly the relevant added slots |
| Tracking.UnchangedScheduleIsQuiet | bot.py:2549-2617 | when the fetched slots are the saved ones, manual mode sends nothing |
| Tracking.NewRelevantSlotAnnounced | bot.py:2549-2631 | a relevant slot that was not saved before is announced and is in the message, except when the baseline was missing and the fetch wrote one, where the pass fails before any message |
| Tracking.CheckRecord | bot.py:2348-2659 | an unknown doctor's record is queued for deletion (`DoctorUnknown`) and a paused record is left alone, both without any change; otherwise the rules are frozen; a missing payload ends the pass, leaving only what the fetch itself wrote; a fetched schedule becomes the doctor's baseline, except that a first baseline the fetch wrote stays as written; auto mode ends in the auto outcome of the nearest usable slot and switches itself off exactly on a booking, manual mode ends in the manual outcome against the baseline read before the fetch |
| Tracking.FreezeTrack | bot.py:2357-2361 | the record's rules become their freeze; its flags do not change |
| Tracking.FetchAndDecide | bot.py:2365-2617 | the pass after the freeze: with no payload only the fetch's own write (if any) changes the store; a payload becomes the baseline, except that a first baseline the fetch wrote stays as written; auto mode ends in the auto outcome of the nearest slot, switching itself off exactly on a booking; manual mode ends in the manual outcome, a unique-key failure when the baseline was missing and the fetch wrote one |
| Tracking.AutoOutcome | bot.py:2495-2500 | without a usable slot nothing is tried; a bare `False` or an exception from `book_appointment` makes the unpacking of its result raise (`BookingAborts`); otherwise the attempt is booked exactly when `book_appointment` booked |
| Tracking.AutoBranch | bot.py:2482-2542 | the saved schedule ends as the fetched one, except that a refused insert is rolled back and leaves the row already there; the outcome is the auto outcome; `auto_booking` goes off exactly when the slot was booked |
| Tracking.ManualBranch | bot.py:2549-2557 | the saved schedule ends as the fetched one, except that a refused insert leaves the row already there; the outcome is a unique-key failure when no baseline was read and the row exists by now, and the manual decision otherwise |
| Tracking.NearestSlot | bot.py:2396-2398 | the slot named is the head of `collect_matching_slots` |
| Tracking.Announce | bot.py:2559-2617 | filtering the diff and the schedules and deciding give the manual decision |
| Tracking.Conclude | bot.py:2596-2617 | the decision on the sorted listings is the decision on their sets |
| Tracking.SeqOfSet | bot.py:2596-2600 | a sorted listing is empty, or has as many elements, exactly when its set does |
| Booking.ApiAppointmentIdSpec | bot.py:3256-3273 | the first lookup finds an id iff some appointment of the patient has a speciality of the group and an id, and then it is the first such appointment's |
| Booking.FalsyIdSkipped | bot.py:3261-3273 | an appointment of the group whose `appointmentId or id` is falsy does not stop the first lookup; the next one with an id is taken |
| Booking.FindApiAppointment | bot.py:3256-3273 | the loop over the patient's appointments returns the first lookup's id |
| Booking.FindLinkedAppointment | bot.py:3275-3285 | the link lookup finds nothing iff no link of the group has an id that converts to an integer; otherwise it returns such a link's id |
| Booking.LaterAppointmentIdSpec | bot.py:3450-3463 | after a refused creation the lookup yields the first converting id of the group when there is one |
| Booking.LaterAppointmentIdNone | bot.py:3450-3463 | with no converting id it yields nothing new, or the id of some appointment of the group; with no appointment of the group, nothing |
| Booking.FindLaterAppointment | bot.py:3450-3463 | the loop returns the later lookup's id |
| Booking.Target | bot.py:3303 | the target prefix has at most 16 characters |
| Booking.Prefix16 | bot.py:3313 | `st[:16]` has at most 16 characters |
| Booking.SlotForSpec | bot.py:3307-3320 | no slot is found iff no start begins with the target; otherwise the first such slot's start and end are found |
| Booking.FindSlot | bot.py:3307-3320 | the three nested loops, left at the first hit, find the first slot whose start matches the target |
| Booking.KeyFindsSlot | bot.py:3303-3313 | the key `parse_schedule_payload` gives a slot finds that same slot again at booking time |
| Booking.ReferralPolicy | bot.py:3396-3407 | a whitelisted speciality always gets policy 2; a doctor without a speciality gets the strict policy 0 |
| Booking.Attempt | bot.py:3364-3496 | with both ids converted, the calls end in a booking or a failure, never a bare `False` |
| Booking.AttemptCalls | bot.py:3364-3496 | at most two calls, all on the slot found; the first is a shift iff the appointment found is truthy after `int()` (present and not 0); two calls are a creation and then a shift of the later id; a booking names the kind of its last call; an id is saved only after a booking |
| Booking.ZeroIdIsNone | bot.py:3364-3464 | an appointment id or later id that converts to 0 is falsy: the attempt is the one without an appointment, a creation when any call is made |
| Booking.ShiftOutcomeShape | bot.py:3364-3489 | a shift adds one call; its success is of kind `shift`; an id is saved only after a success |
| Booking.DecideCalls | bot.py:3216-3496 | calls happen only when the doctor, its ids, the schedule and the slot are all there; every call is on the slot found; the first call shifts iff the appointment found is truthy; two calls are a creation and then a shift of the later id |
| Booking.DecideBooked | bot.py:3216-3496 | a booking follows at least one call and is of kind `shift` iff its last call is a shift; an id is saved only after a booking |
| Booking.ReferralGate | bot.py:3393-3419 | with no appointment, the strict policy and no referral, the booking is refused before any call |
| Booking.WhitelistCreates | bot.py:3405-3432 | a whitelisted speciality with no appointment goes to creation, whatever its row says |
| Booking.CreateFirst | bot.py:3393-3432 | with no appointment and a non-strict policy, the first call is a creation |
| Booking.BareFalsePaths | bot.py:3240-3327 | a bare `False` comes back iff the doctor id does not convert, or the schedule is usable but the slot is not in it with an end |
| Booking.UpsertSpec | bot.py:3371-3378 | after recording an id every code of the group has a link with that id, existing referrals are kept, new links have none, and other links are untouched |
| Booking.UpsertIdempotent | bot.py:3371-3378 | recording the same id twice is recording it once |
| Booking.UpsertKeepsReferrals | bot.py:3371-3414 | recording an id keeps every referral of the group, so the referral gate decides as before |
| Booking.BookedIdIsFound | bot.py:3275-3378 | after a booking that saved a numeric id, the link lookup of the next booking finds that id |
| Booking.LinkStore.constructor | bot.py:3278 | the store holds the user's links, one per speciality code |
| Booking.LinkStore.Record | bot.py:3372-3378 | the upsert loop over the group's codes leaves exactly the recorded links |
| Booking.SetMove | bot.py:3372 | moving one code from the remaining set to the done set keeps them apart and their union, and shrinks the remainder |
| Booking.UpsertNothing | bot.py:3372-3378 | recording for no code changes nothing |
| Booking.UpsertStep | bot.py:3372-3378 | recording one more code updates or adds that one link |
| Booking.Book | bot.py:3216-3498 | the whole function: the appointment found is the first lookup's when it is truthy after `int()` and a converting link id otherwise, the result and calls are the decision's, and the links change only by recording a saved id |
| ServiceShift.ParseClock | service_shift.py:50-52 | a parsed `hh:mm` is a whole minute of the day; anything `split`, `int()` or `time()` refuse gives None |
| ServiceShift.ClockSeconds | service_shift.py:52 | `time(h, m)` of a valid hour and minute is a whole minute of the day |
| ServiceShift.ParseClockOfText | service_shift.py:50-52 | the `HH:MM` text of a clock time parses to that time |
| ServiceShift.ClockFields | service_shift.py:50-52 | a whole minute of the day has a valid hour and minute field, and they rebuild it |
| ServiceShift.ClockRoundTrip | service_shift.py:50-52 | every time the parser can return reads back from its own `HH:MM` text |
| ServiceShift.ParseWindowSpec | service_shift.py:48-53 | a window is parsed iff both ends are, start first |
| ServiceShift.ParseWindowRoundTrip | service_shift.py:48-53 | every window the parser can return reads back from the texts of its ends |
| ServiceShift.NoAllowedWindows | service_shift.py:141-148 | with no allowed windows a slot passes iff no forbidden window holds its start |
| ServiceShift.ForbiddenRejects | service_shift.py:146-147 | a forbidden window holding the start rejects the slot whatever the allowed windows say |
| ServiceShift.WindowHalfOpen | service_shift.py:143 | windows are half-open: a slot starting at a window's start passes, one starting at its end does not |
| ServiceShift.EndIgnored | service_shift.py:141-148 | the slot's end never changes the verdict |
| ServiceShift.TimedLeTotal | service_shift.py:165-207 | ordering by start time is a total preorder |
| ServiceShift.PickEarliestLoop | service_shift.py:151-167 | the loop returns the first passing slot of least start (`<` keeps the first of equals), None for an empty payload |
| ServiceShift.ReadSlot | service_shift.py:158-164 | one loop body keeps the slot iff both times parse and the windows pass it |
| ServiceShift.Consider | service_shift.py:165-166 | one step of `best is None or st < best[0]` keeps `best` the first earliest so far |
| ServiceShift.EarliestSpec | service_shift.py:151-167 | no choice iff no candidate; otherwise the choice is a candidate no later than any and strictly earlier than every candidate before it |
| ServiceShift.SlotCandidateMember | service_shift.py:155-166 | every passing slot of the payload is a candidate |
| ServiceShift.CandidateFromSlot | service_shift.py:155-166 | every candidate comes from a passing slot |
| ServiceShift.PickEarliestSpec | service_shift.py:151-167 | when some slot passes, a slot is chosen, it passes, and it starts no later than that slot |
| ServiceShift.IterResourcesLoop | service_shift.py:107-116 | the generator's three loops yield exactly the resources of the target clinic, in order |
| ServiceShift.LpuResourcesLoop | service_shift.py:111-116 | the resources of one clinic are those of its available resources, in order |
| ServiceShift.ArResourcesLoop | service_shift.py:113-116 | one resource per complex resource, with its cabinet |
| ServiceShift.ArResourcesMember | service_shift.py:113-116 | a resource is yielded for an available resource iff it comes from one of its complex resources |
| ServiceShift.LpuResourcesMember | service_shift.py:108-116 | a resource is yielded for a clinic iff the clinic's short name is the target and it comes from one of its complex resources |
| ServiceShift.IterResourcesMember | service_shift.py:107-116 | a resource is yielded iff it comes from a clinic with the target short name |
| ServiceShift.OtherClinicIgnored | service_shift.py:109-110 | a clinic with another short name, or none, contributes nothing |
| ServiceShift.ShiftChoiceLoop | service_shift.py:200-208 | the loop over resources returns the first resource slot of least start |
| ServiceShift.ResourceCandidateBound | service_shift.py:202-205 | a resource with a passing slot offers a slot, no later than that one |
| ServiceShift.EarliestBelow | service_shift.py:207 | the earliest of a list starts no later than any member |
| ServiceShift.ResourceCandidatesMember | service_shift.py:201-208 | the offers across resources are exactly the resources' own best slots |
| ServiceShift.ResourceCandidateOwn | service_shift.py:206-208 | what a resource offers carries that resource's ids and cabinet |
| ServiceShift.ShiftChoiceEarliest | service_shift.py:200-208 | when some resource of the clinic has a passing slot, a slot is chosen, it belongs to a resource of the clinic, and no passing slot of any resource starts earlier |
| ServiceShift.NoClinicNoChoice | service_shift.py:107-209 | with no clinic of the target name there is nothing to shift to |
| Specialities.EquivalentCodes | database.py:521-527 | no code (or an empty one) has no equivalents; any other code is among its own, and a group has at most two codes |
| Specialities.TherapistGroup | database.py:515-518 | 69 and 602 name the same group, and that group is exactly those two |
| Specialities.UnaliasedCode | database.py:521-527 | a code outside the aliases is equivalent only to itself |
| Specialities.GroupsAreClasses | database.py:515-527 | equivalence is symmetric and every member of a group has that same group |
| Specialities.ShouldUpdateIff | database.py:256-279 | a name is replaced iff the incoming one is non-empty and there is no current name or the incoming name keeps every informative feature of the current (marker, digits, length of 8 or more); `_should_update_name` in `save_or_update_doctor` (line 631) has the same shape with its own tokens |
| Specialities.EmptyNames | database.py:260-263 | an empty incoming name never replaces; any non-empty name replaces a missing or empty one; `_should_update_name` in `save_or_update_doctor` (line 631) has the same shape with its own tokens |
| Specialities.SameNameUpdates | database.py:256-279 | saving the same non-empty name again is always allowed; `_should_update_name` in `save_or_update_doctor` (line 631) has the same shape with its own tokens |
| Specialities.UpdatesCompose | database.py:256-279 | two allowed updates in a row are one allowed update: information cannot be lost in steps; `_should_update_name` in `save_or_update_doctor` (line 631) has the same shape with its own tokens |
| Specialities.CabinetNameKept | database.py:267-272 | a service name naming a `КАБИНЕТ` is not replaced by a name without one of the markers |
| WebIntervals.ParseRuleShape | web_app.py:1026-1040 | a parsed rule has a lower-cased one-word prefix and two five-character ends with no blank, the start holding no dash |
| WebIntervals.ParseFormat | web_app.py:1026-1072 | `_parse_rule` reads back exactly the prefix and ends of a text `_merge_rules` writes |
| WebIntervals.FormatWords | web_app.py:1029-1072 | the written text splits on blanks into the prefix and `s-e` |
| WebIntervals.FormatSplit | web_app.py:1029 | `strip().split()` of two words joined by a blank is those two words |
| WebIntervals.TimesHalves | web_app.py:1035 | `split('-', 1)` of `s-e` is `[s, e]` when `s` has no dash |
| WebIntervals.ClockRoundTrip | web_app.py:1046-1057 | `to_minutes(to_str(m)) == m` for every minute count below 100 hours, and `to_str` writes `DD:DD` |
| WebIntervals.LexLeOrder | web_app.py:1047 | `sorted()` on minute pairs uses a total, antisymmetric order |
| WebIntervals.MergeStepInvariant | web_app.py:1049-1054 | one merge step keeps the merged list sorted, apart, and not past the last input |
| WebIntervals.MergeSortedApart | web_app.py:1047-1054 | the merge of a sorted list is sorted and its intervals are strictly apart |
| WebIntervals.MergeOfSeparated | web_app.py:1049-1054 | merging intervals that are already apart changes nothing |
| WebIntervals.MergeCovers | web_app.py:1047-1054 | the merge covers exactly the minutes its input covers |
| WebIntervals.MergeStepCovers | web_app.py:1049-1054 | one step covers what the merged list and the new interval cover |
| WebIntervals.CoversSnoc | web_app.py:1049-1054 | one more interval covers its own minutes in addition |
| WebIntervals.MergeEnds | web_app.py:1049-1054 | every end point of the merge is an end point of an input interval |
| WebIntervals.ToMinuteSpans | web_app.py:1047 | one minute pair per interval when every time converts |
| WebIntervals.ToMinuteSpansAt | web_app.py:1047 | each pair is the conversion of the interval at the same place |
| WebIntervals.ToMinuteSpansFlat | web_app.py:1046-1047 | the conversion succeeds iff every time converts, and then it converts interval by interval |
| WebIntervals.AllSpansConvertSnoc | web_app.py:1047 | a list with one more interval converts iff the list and the interval do |
| WebIntervals.MergeIntervalsPermutation | web_app.py:1042-1058 | `_merge_intervals` depends only on the multiset of its intervals, not their order |
| WebIntervals.AllSpansConvertPermutation | web_app.py:1047 | whether every time converts does not depend on the order |
| WebIntervals.ToSpans | web_app.py:1058 | one text pair per merged interval |
| WebIntervals.ToSpansAt | web_app.py:1058 | each text pair is the clock text of the minutes at the same place |
| WebIntervals.ToSpansFront | web_app.py:1058 | dropping the last interval keeps the texts before it |
| WebIntervals.ToSpansLast | web_app.py:1058 | the last text pair is that of the last interval |
| WebIntervals.ToSpansSnoc | web_app.py:1058 | the texts of a list are the texts of its front and then of its last interval |
| WebIntervals.ClockTextShape | web_app.py:1056-1057 | a clock text below 100 hours has five characters, no blank and no dash |
| WebIntervals.MergeSortedLoop | web_app.py:1048-1054 | the loop, extending the last interval in place, computes the merge |
| WebIntervals.MergeIntervalsLoop | web_app.py:1042-1058 | the function with its loop returns the merged texts, None where a time does not convert |
| WebIntervals.MergeIntervalsSpec | web_app.py:1042-1058 | the result is the text of the merge of the sorted minutes; it is sorted, strictly apart, and covers exactly the input's minutes |
| WebIntervals.CoversPermutation | web_app.py:1047 | what a list covers depends only on its multiset |
| WebIntervals.ToSpansRoundTrip | web_app.py:1046-1058 | the texts of minute pairs below 100 hours convert back to those pairs |
| WebIntervals.MergeIntervalsIdempotent | web_app.py:1042-1058 | for times below 100 hours the merge succeeds and merging the merged intervals gives them back |
| WebIntervals.MergedInClock | web_app.py:1047-1054 | merging times below 100 hours keeps them below 100 hours |
| WebIntervals.SortedMember | web_app.py:1047 | every element of the sorted list is an element of the unsorted one |
| WebIntervals.AllConvert | web_app.py:1047 | intervals whose times all convert convert as a list |
| WebRules.Prefixes | web_app.py:1062-1068 | the keys of `grouped`, in insertion order, have no repeats |
| WebRules.GroupedStep | web_app.py:1068 | one `setdefault(prefix, []).append((s, e))` appends to an existing group, or opens a new key at the end of the key order |
| WebRules.MergeRulesLoop | web_app.py:1060-1074 | the function with its two loops returns the sorted merged rules, None where a time does not convert |
| WebRules.ConvertsUpToStep | web_app.py:1069-1072 | one more group that converts extends the converted prefix of the key order |
| WebRules.EmitRules | web_app.py:1069-1072 | the output loop succeeds iff every group converts, and then writes each group's merged intervals, group by group |
| WebRules.BlockOf | web_app.py:1070-1072 | a group's output is its merged intervals, formatted with its prefix |
| WebRules.GroupRules | web_app.py:1062-1068 | the grouping loop builds `grouped` and its key order from the rules that parse |
| WebRules.ParsedSnoc | web_app.py:1063-1066 | one more rule adds its parse, or nothing when it does not parse |
| WebRules.AppendFormatted | web_app.py:1070-1072 | the inner loop appends `f"{prefix} {s}-{e}"` for every merged interval |
| WebRules.PrefixesMembers | web_app.py:1062-1068 | a prefix is a key iff some parsed rule has it |
| WebRules.PrefixHasGroup | web_app.py:1062-1068 | a prefix is a key iff its group is non-empty |
| WebRules.GroupMember | web_app.py:1068 | every interval of a group comes from a parsed rule with that prefix |
| WebRules.ParsedMember | web_app.py:1063-1067 | every parsed rule comes from an input rule, with a lower-cased one-word prefix |
| WebRules.MergeRulesSpec | web_app.py:1060-1074 | the result is sorted and is a permutation of the groups' merged, formatted intervals |
| WebRules.UnparsableDropped | web_app.py:1064-1066 | a rule `_parse_rule` refuses has no effect on the result |
| WebRules.GroupInClock | web_app.py:1068 | groups of rules with times below 100 hours have times below 100 hours |
| WebRules.MergedGroup | web_app.py:1069-1072 | such a group merges; its merge is empty only for an empty group, has text ends `_parse_rule` accepts, and merges to itself |
| WebRules.ParseFormatted | web_app.py:1026-1072 | parsing the written rules of a prefix gives back its merged intervals under that prefix |
| WebRules.ParsedOfMerged | web_app.py:1060-1074 | parsing the merged rules gives, prefix by prefix, the merged intervals tagged with their prefix |
| WebRules.TaggedGroup | web_app.py:1068 | the group of `p` among intervals tagged `q` is the merge of `q` when `p == q`, empty otherwise |
| WebRules.GroupOfTagged | web_app.py:1060-1074 | grouping the merged output by prefix gives back each prefix's merged intervals |
| WebRules.GroupConverts | web_app.py:1069-1072 | a group of rules with times below 100 hours converts |
| WebRules.SamePrefixes | web_app.py:1074 | a reordering of the merged output has the same prefixes |
| WebRules.SameBlock | web_app.py:1074 | in a reordering of the merged output each group merges to the same rules |
| WebRules.MergeRulesIdempotent | web_app.py:1060-1074 | for rules with times below 100 hours, merging succeeds and merging the merged rules gives them back |
| WebRules.MergeRulesPastClock | web_app.py:1042-1074 | `X 99:99-99:99` merges to `X 100:39-100:39`, which a second merge drops: idempotence needs times below 100 hours |
| WebRules.FirstMergePastClock | web_app.py:1042-1074 | the first merge of `X 99:99-99:99` writes `X 100:39-100:39` |
| WebRules.SecondMergePastClock | web_app.py:1026-1074 | merging `X 100:39-100:39` gives nothing |
| WebRules.ParsedPastClock | web_app.py:1026-1040 | `X 99:99-99:99` parses |
| WebRules.PrefixesOne | web_app.py:1068 | one parsed rule gives one key |
| WebRules.BlockPastClock | web_app.py:1069-1072 | the group `99:99-99:99` is written as `100:39-100:39` |
| WebRules.MergedPastClock | web_app.py:1042-1058 | `_merge_intervals([("99:99", "99:99")])` is `[("100:39", "100:39")]` |
| WebRules.OneSpanMinutes | web_app.py:1047 | a single interval converts to its own minutes |
| WebRules.NinetyNine | web_app.py:1046 | `to_minutes("99:99")` is 6039 |
| WebRules.HundredThirtyNine | web_app.py:1056-1057 | `to_str(6039)` is `100:39` |
| WebRules.OverlongRefused | web_app.py:1036-1037 | a six-character start is refused |
| WebCoverage.DayPrefixes | web_app.py:1081-1089 | building the day's labels fails exactly when `today + timedelta(days=1)` overflows, on the last representable date |
| WebCoverage.BuildPrefixes | web_app.py:1081-1089 | the statements that add labels one by one build the day's label set |
| WebCoverage.CollectDayIntervals | web_app.py:1091-1097 | the collection loop keeps, in order, the intervals of the rules whose prefix labels the day |
| WebCoverage.CoverageForDayLoop | web_app.py:1078-1099 | `_coverage_for_day` with its loops returns the merge of the day's intervals, None on overflow or a time that does not convert |
| WebCoverage.DayPrefixesSpec | web_app.py:1081-1089 | a label applies to a day iff it is its ISO date, its weekday name, `сегодня` on today or `завтра` on the day after |
| WebCoverage.TodayNotTomorrow | web_app.py:1086-1089 | no day is labelled both `сегодня` and `завтра` |
| WebCoverage.WeekdayKnown | web_app.py:1076-1084 | `WEEKDAY_MAP` has every weekday number |
| WebCoverage.WeekdayNameShape | web_app.py:1076 | a weekday name is neither a relative label nor ten characters long like an ISO date |
| WebCoverage.IsoNotRelative | web_app.py:1082 | an ISO date is never a relative label |
| WebCoverage.DayIntervalsMember | web_app.py:1091-1097 | an interval is collected iff some rule parses with a label of the day and has that interval |
| WebCoverage.BlockApplies | web_app.py:1093-1097 | one rule contributes an interval iff it parses with a label of the day and has that interval |
| WebCoverage.OtherDateIgnored | web_app.py:1082-1096 | a rule for another ISO date contributes nothing |
| WebCoverage.UnlabelledIgnored | web_app.py:1096 | a rule whose prefix is not a label of the day contributes nothing |
| WebCoverage.OwnDateApplies | web_app.py:1082-1097 | a rule for the day's own ISO date contributes its interval |
| WebCoverage.CoverageForDaySpec | web_app.py:1078-1099 | when the day's times convert, the coverage is the text of the sorted merge; it is strictly apart and covers exactly the minutes the day's rules cover |
| WebCoverage.Overlap | web_app.py:1119-1122 | the overlap of two intervals is never negative and at most either interval's length |
| WebCoverage.ClassifyCoverageLoop | web_app.py:1101-1128 | `_classify_coverage` with its sum and sweep loops grades the coverage, None where a time does not convert |
| WebCoverage.SumLengths | web_app.py:1107-1109 | the total loop succeeds iff every work time converts, giving the sum of the interval lengths |
| WebCoverage.SweepCovered | web_app.py:1113-1122 | the nested sweep adds up every pairwise overlap |
| WebCoverage.ToMinuteSpansPrefix | web_app.py:1108-1109 | when a list converts, so does each of its prefixes |
| WebCoverage.ToMinuteSpansStep | web_app.py:1108-1109 | one more converted interval adds its length to the total |
| WebCoverage.ToMinuteSpansSnoc | web_app.py:1114 | one more converted interval appends its minute pair |
| WebCoverage.TotalSnoc | web_app.py:1107-1109 | the total of a list with one more interval adds its length |
| WebCoverage.PrefixFails | web_app.py:1108-1109 | one time that does not convert makes the whole conversion fail |
| WebCoverage.CoveredNonNegative | web_app.py:1117-1122 | the covered count is never negative |
| WebCoverage.CoveredByNonNegative | web_app.py:1118-1122 | the covered count of one work interval is never negative |
| WebCoverage.CoveredByNothing | web_app.py:1117-1122 | with no rule intervals nothing is covered |
| WebCoverage.NoRulesNoCoverage | web_app.py:1101-1124 | with no rule intervals every convertible work day is graded `none` |
| WebCoverage.CoveredByAtMost | web_app.py:1118-1122 | rule intervals that are sorted and apart cover one work interval at most up to the last rule's end |
| WebCoverage.CoveredByAtMostLength | web_app.py:1118-1122 | rule intervals that are sorted and apart cover at most a work interval's length |
| WebCoverage.CoveredAtMostTotal | web_app.py:1107-1122 | merged rule intervals never cover more than the total work time |
| WebCoverage.CoveredBySpanning | web_app.py:1117-1122 | one rule interval spanning every work interval covers the total work time |
| WebCoverage.SpanningRuleFull | web_app.py:1101-1128 | a work day inside one rule interval, with a non-zero total, is graded `full` |
| WebForms.CoerceValue | web_app.py:513-530 | empty text gives None; a boolean field stays a boolean; an integer field stays an integer; a text field gets the text unless it looks like a JSON list |
| WebForms.IntText | web_app.py:518-520 | the decimal text of an integer is never empty |
| WebForms.PyIntOfIntText | web_app.py:520 | `int()` reads back the decimal text of every integer |
| WebForms.IntRoundTrip | web_app.py:518-520 | typing `str(n)` into an integer field stores `n` |
| WebForms.IntRefusedKept | web_app.py:518-522 | text `int()` refuses leaves an integer field as it was |
| WebForms.LowerTrue | web_app.py:517 | `"True".lower()` is `true` |
| WebForms.LowerFalse | web_app.py:517 | `"False".lower()` is `false` |
| WebForms.BoolRoundTrip | web_app.py:516-517 | typing `str(b)` into a boolean field stores `b` |
| WebForms.BoolBeforeInt | web_app.py:516-518 | a boolean field is checked before the integer case, so digits other than `1` store False although `int()` reads them |
| WebForms.LowerOfUncasedDigits | web_app.py:517 | lower-casing leaves digits alone |
| WebForms.ListField | web_app.py:525-529 | a list field takes the decoded JSON, or stays as it was when decoding fails |
| WebForms.FormRulesMember | web_app.py:1377 | a rule comes from the form iff some comma part strips to it and is not blank |
| WebForms.NonBlankShape | web_app.py:1377 | a kept part is not blank, not padded and holds no comma |
| WebForms.StripIsPart | web_app.py:1377 | stripping a part without commas leaves no comma |
| WebForms.AppendMissingPrefix | web_app.py:1404-1409 | appending keeps the current list as a prefix |
| WebForms.AppendMissingMember | web_app.py:1404-1409 | after appending, a rule is in the list iff it was there or was offered |
| WebForms.AppendMissingDistinct | web_app.py:1404-1409 | a list without repeats stays without repeats |
| WebForms.AppendMissingKnown | web_app.py:1404-1409 | offering only rules already present changes nothing |
| WebForms.AppendMissingIdempotent | web_app.py:1404-1409 | offering the same rules twice adds nothing the second time |
| WebForms.AppendMissingCount | web_app.py:1405-1409 | `added` counts exactly the distinct offered rules the list lacked |
| WebForms.Dedup | web_app.py:1380-1386 | the `seen` loop keeps the first occurrence of each rule, in order |
| WebForms.AsTexts | web_app.py:1391-1408 | the stored list holds the rule texts one for one |
| WebForms.TrackedDoctor.constructor | web_app.py:1388-1393 | a tracking record starts with the given rules |
| WebForms.TrackedDoctor.AppendRules | web_app.py:1404-1411 | the loop extends the record's rules in place with the missing ones and counts them |
| WebForms.AddTrackForm | web_app.py:1369-1411 | `add_track` stores a new record's rules or extends the existing one in place, and changes nothing when the merge raises |
| WebForms.StoreRules | web_app.py:1380-1411 | after the merge, a new record gets the deduplicated rules and an existing one is extended with them |
| WebForms.StoreMergedExtends | web_app.py:1404-1411 | the extension never shortens the list, and the count is how much it grew |
| WebForms.AddTrackExtends | web_app.py:1376-1411 | on an existing record every stored rule stays in place, each merged rule it lacks is added once, no repeat appears, and the same form again adds nothing |
| WebForms.TextsMember | web_app.py:1380-1386 | deduplication loses no rule |
| WebForms.AddTrackCreates | web_app.py:1376-1394 | a new record gets exactly the merged rules, without repeats |
| WebForms.EmptyFormNoRules | web_app.py:1371-1377 | an empty or missing form gives a new record no rules and adds none to an existing one |
| Calendar.Weekday | bot.py:3011 | `weekday()` is one of the seven day numbers |
| Calendar.NextDay | bot.py:2870 | `d + timedelta(days=1)` is a real date, one day later |
| Calendar.NextDayWeekday | rules_parser.py:192-199 | tomorrow's weekday follows today's, modulo 7 |
| Calendar.NextDayAdvances | bot.py:2870 | tomorrow is never today |
| Calendar.EarlierTrichotomy | bot.py:3134 | `<` on date-times, down to the microsecond, is strict and total |
| Calendar.IsoDate | bot.py:2941 | `strftime('%Y-%m-%d')` writes ten characters |
| Calendar.SlotText | bot.py:3099 | `strftime('%Y-%m-%d %H:%M')` writes sixteen characters |
| Calendar.ParseIsoDate | bot.py:2875 | reading `YYYY-MM-DD` succeeds iff the text has that shape and names a real date, and the date writes back as the text |
| Calendar.IsoDateRoundTrip | bot.py:2940-2941 | a written date reads back as itself |
| Calendar.ParseIsoClock | bot.py:2824-2840 | a clock `HH[:MM[:SS[.fff[fff]]]]` reads as a time of day below 24 hours and its microseconds; text of 2, 5 or 8 characters has none |
| Calendar.ParseIsoTime | bot.py:2824-2840 | `time.fromisoformat` without an offset accepts exactly the clocks `ParseIsoClock` accepts, gives their whole seconds, and loses nothing on text without a `.` |
| Calendar.ParseClockText | bot.py:2824-2825 | a written `HH:MM` reads back as its time of day |
| Calendar.SignIndex | service_shift.py:159 | the offset starts at a sign with no sign before it, or there is none |
| Calendar.ParseIsoTail | service_shift.py:159 | the part after the separator reads iff the text before its first sign is a clock and the rest, if any, is an offset `±HH:MM[:SS[.ffffff]]`; the result is that clock |
| Calendar.ParseIsoDateTime | bot.py:3074 | `datetime.fromisoformat` gives a real date-time iff the first ten characters are a date and what follows any one separator is a clock with an optional offset; the clock and microseconds are the ones read |
| Calendar.ClockAt | service_shift.py:159 | the date-time built from a clock has that date, a valid clock with those seconds, and those microseconds |
| Calendar.SignIndexAt | service_shift.py:159 | the first sign is unique: any index with no sign before it and a sign or the end at it is `SignIndex` |
| Calendar.StampWithFraction | bot.py:3074 | `2025-03-24T18:15:00.000+03:00` reads as 18:15 on 24 March 2025 |
| Calendar.StampWithMicros | service_shift.py:159 | `2025-03-24 18:15:07.250000` keeps its seconds and microseconds |
| Calendar.StampAnySeparator | service_shift.py:159 | `2025-03-24_18:15` reads too: any one character separates date and clock |
| Calendar.StampShortFractionRefused | service_shift.py:159 | a two-digit fraction is refused |
| Calendar.Strptime | bot.py:3046 | `strptime` on a format without seconds gives a real date-time with zero seconds |
| Calendar.StrptimeNeeds | bot.py:3046 | a successful `strptime` needs enough characters and every literal of its format |
| Calendar.StrptimeIsoDate | bot.py:2875 | `strptime` of a written date gives back its midnight |
| Calendar.StrptimeSlotText | bot.py:3046-3099 | `strptime` of a written slot key gives back the slot time to the minute |
| Sorting.Sort | bot.py:3096 | `sort` keeps the length and the elements |
| Sorting.SortIsSorted | bot.py:3096 | the result is ordered by the key |
| Sorting.SortOfSorted | web_app.py:1074 | sorting an ordered list changes nothing |
| Sorting.SortedUnique | web_app.py:1074 | for an antisymmetric order two ordered lists with the same elements are equal |
| Sorting.SortPermutationInvariant | web_app.py:1047 | for an antisymmetric order the result depends only on the elements |
| Sorting.FirstMinIndexIsFirstMin | service_shift.py:151-167 | the earliest-first scan's choice is minimal, and no earlier element is as small |
| Sorting.SortHeadIsFirstMin | bot.py:3096 | the stable sort starts with the first minimal element |
| PyText.PyInt | web_app.py:520 | `int()` reads an all-digit text as its decimal value |
| PyText.DecValueOfDecimal | web_app.py:520 | `int(str(n)) == n` |
| PyText.Strip | web_app.py:1377 | `strip()` never lengthens a text and leaves no whitespace at either end |
| PyText.StripIdempotent | web_app.py:1377 | stripping twice is stripping once |
| PyText.Split | web_app.py:1377 | `split(',')` gives at least one piece, none holding a comma |
| PyText.SplitJoin | web_app.py:1377 | joining the pieces with the separator gives back the text |
| PyText.SplitWs | web_app.py:1029 | `split()` gives only non-empty runs without whitespace |
| PyText.LowerIdempotent | web_app.py:1038 | lower-casing twice is lower-casing once |
| PyText.StrLtTotal | web_app.py:1074 | string comparison orders any two different texts |

## Left out

- Tracking.Relevant: its contract says every key the filter keeps is in the result and that the result lies within the given keys. It does not say that every result key is kept. `SlotSelect.FilterSlotsByRules` carries the full statement for the filter itself.
- Tracking.FetchAndDecide: when the request with the linked appointment id fails or answers without a schedule, `get_schedule_for_doctor` clears `appointment_id` on every `UserDoctorLink` of the user's alias group and commits (bot.py:2294-2311). The model does not make this update of `Booking.LinkStore`, so it does not capture that the next `Booking.FindLinkedAppointment` for that group finds no id.
- Tracking.CheckRecord: models one record of `check_schedule_updates`, not its loop over all records. A `SaveConflict` or a `BookingAborts` raises out of that loop, so the later records and the queued deletions and auto-booking switch-offs are never reached. The model does not capture that.
- WebRules.MergeRulesIdempotent: it holds only for rules whose times are below 100 hours, because `_merge_rules` writes `100:39` for `99:99`, and `_parse_rule` later refuses a start of that length (`WebRules.MergeRulesPastClock`).
- WebIntervals.MergeIntervalsIdempotent: it holds only for intervals below 100 hours, for the same reason. `_merge_intervals` writes `100:39` for an interval that ends at `99:99` (`WebRules.MergedPastClock`), and merging again raises, because `int(":3")` in `to_minutes("100:39")` fails.
- RulesParser.CalendarDate: Python's `datetime(y, m, d)` raises `OverflowError`, not `ValueError`, when a field is above 2^31 − 1. The model treats that as an ordinary refusal (None).
- RulesParser.ParseDateRule: a day such as `99999999999 марта` makes `datetime(year, month, day)` at rules_parser.py:75 raise `OverflowError`. That error is outside `except (ValueError, IndexError)` and so leaves the function. The model returns None.
- RulesParser.ParseDateRuleMonthName: the same `OverflowError` for a day above 2^31 − 1 is modelled as None.
- RuleMatch.IntClock: `time(int(h), int(m))` at bot.py:2833-2837 raises `OverflowError` for a field above 2^31 − 1, as in `99999999999:00:10:00`. That error is outside `except (ValueError, IndexError)`. The model returns None.
- RuleMatch.UndashedWindow: the same `OverflowError` from the four-field fallback is modelled as None.
- RuleMatch.DottedDate: `date(year, month, day)` at bot.py:2884-2888 raises `OverflowError` for a field above 2^31 − 1, as in `1.1.99999999999`. That error is outside `except ValueError`. The model returns None.
- RuleMatch.TokenDate: the same `OverflowError` from `date(year or reference_year, month, day)` at bot.py:2893-2900 is modelled as None.
- RuleMatch.ParseDateRule: the `OverflowError` of either fallback is modelled as None, not as an error that leaves `_parse_date_rule`. So is the `ValueError` of `int()` on a digit run longer than the interpreter's digit limit, which bot.py:2884 does not guard.
- StoredRules.DatePrefix: `date(datetime.now().year, m, d)` at bot.py:2962-2968 raises `OverflowError` for a day above 2^31 − 1. That error is outside `except ValueError`. The model gives no date.
- StoredRules.ClassifyPrefix: the same `OverflowError` is modelled as a prefix that stays of kind `any`, not as an error that leaves the classifier.
- Calendar.ParseIsoTime: it refuses a time with a UTC offset. Python accepts one and gives an aware time, and comparing an aware time with a naive slot time then raises `TypeError`. It also refuses the looser forms that newer Python versions accept, such as `HHMM`, a `Z` suffix or a fraction of other than 3 or 6 digits.
- Calendar.ParseIsoDateTime: it follows the documented `fromisoformat` grammar only. The looser forms of newer Python versions are refused, such as basic dates, `Z` or week dates. An offset is accepted only when its fields are in clock range.
- Booking.Book: ids are modelled as their text. An upstream appointment's id is the text of `appointmentId or id`, and every falsy JSON value there (the number `0`, null, `false`, `""`, a missing key) is given as `""`, so the lookup passes over it (`Booking.FalsyIdSkipped`). A truthy id that `int()` turns into `0`, such as the text `"0"`, ends the lookup and then counts as no appointment (`Booking.ZeroIdIsNone`). The shift call passes the id's text, not its `int()` value.
- The `ratio >= 0.999` float test of `_classify_coverage` is modelled exactly as `1000 * covered >= 999 * total`. Floating-point rounding of the quotient is not modelled.
- A legacy string range with a one-digit hour, such as `9:00-10:00`, never gives a window, because `time.fromisoformat` refuses it. The model keeps this behaviour rather than correcting it (`RuleMatch.OneDigitHourUnparsed`).
- Schedule.Compare: the third part of the result, the human-readable change text built by `group_slots_by_date`, is modelled only as whether there is one.
- Schedule.Compare: it assumes that every changed key has the form `YYYY-MM-DD HH:MM` with a month from `01` to `12`. For such keys `group_slots_by_date` (bot.py:3169-3173) builds its text. For any other key it raises, and nothing at bot.py:2549 catches that: a `startTime` such as `24.03.2025 18:15:00` gives the key `24.03.2025 18:15`. Its `split("-")` does not give three parts. The model reports such a change as an ordinary change.
- Network, HTTP and the booking API (`emias_api.py`): every upstream answer is a parameter. This covers the fetched schedule, the appointment list, the referral list and the create and shift responses. The fetch's own save of the schedule is `Tracking.BaselineStore.Save` before the diff, of the parameter `fetchWrote`, independent of the payload returned (`fetched`). The fetch may first ask with the linked appointment id and then without it (bot.py:2279-2322), and each answer with a `scheduleOfDay`, even an empty one, is saved when the doctor is known and the commit goes through (emias_api.py:486-521). `fetchWrote` is the last schedule so saved, if any. In the tracking pass, the result of `book_appointment` is the parameter `booking`.
- Persistence (SQLAlchemy sessions, commits, `flag_modified`, logging with `log_user_action`) is modelled as in-memory fields and maps.
- Scheduling and concurrency: the apscheduler driver, the polling and `time.sleep` loop of `shift_service_appointment` with its shift POST, and `run_all.py` threading are not modelled.
- The clock: `datetime.now()`, `date.today()` and the timezone-aware now of `collect_matching_slots` are one naive `now` parameter with seconds and microseconds. Code that reads the clock several times is modelled as reading it once.
- The last representable date: `today + timedelta(days=1)` raises `OverflowError` on 9999-12-31. Most operations require a `now` before that day (`Calendar.ValidNow`). `WebCoverage.DayPrefixes` models the failure as None.
- UTC offsets in slot start times are read and dropped, since the code slices the text by position. Comparing aware with naive times, which raises in Python, is not modelled.
- `strftime('%Y')` is modelled as a four-digit, zero-padded year. Its output for years below 1000 depends on the platform.
- Python's `str.isdigit()` and `\d` accept every Unicode decimal digit. The model accepts ASCII digits only, and lower- and upper-cases ASCII and Cyrillic letters only.
- JSON: stored rules are structured records or plain strings, and other JSON values are not modelled. `json.loads` in `_coerce_value` is a parameter, `decoded`. The stored baseline is an already parsed schedule, so a baseline whose JSON does not parse is not modelled.
- Ids (doctor, appointment, referral, resource) are modelled as integers or strings as the code compares them. The truthiness test `if not slot` is modelled as "no slot".
- The bare `False` that two paths of `book_appointment` return, instead of a pair, is a constructor of the uniform result type. `Booking.BareFalsePaths` says exactly when it arises.
- Message text and keyboards: `group_slots_by_date`, `format_schedule_message_simple`, `humanize_datetime`, the inline keyboard and the 4000-character message split are not modelled. The model says which slots a message lists and which slot it names first.
- Bot and web handlers, Flask routes, templates and the admin CRUD surface are not modelled. The exceptions are the rule dedup of `edit_tracking_rules_handler`, the rule handling of `add_track` and `_coerce_value`.
- `_cleanup_outdated_rules` reads `changed` before assignment when nothing changes, and never removes anything, so it is not modelled as behaviour.
- `parse_user_tracking_input_legacy` is not modelled: it is unused, since `bot.py` imports the parser from `rules_parser.py`. The `_analyze` diagnostic is not modelled either: it is never called.
- `safe_html` is not modelled: it depends on `hash()` placeholders and `html.escape`.
- `extract_speciality_id_from_appointment` is not modelled: it is a deep search over duck-typed values with `id()`-based cycle detection. The speciality of an appointment is a parameter.
- `migrate_services.py`, `migrate_columns.py` and `config.py` are migration scripts and configuration, and are not part of this model.
