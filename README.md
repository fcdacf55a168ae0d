# ur-watcher keyword change detection, in Dafny

ur-watcher periodically fetches a list of rental-vacancy pages. For each
target page it checks which of its *appearance keywords* and *vanish
keywords* occur in the page text, ignoring case. It compares these readings
with the ones stored from the previous run and collects one LINE
notification block per target whose keywords changed. Then it stores the
fresh readings for the next run. A keyword *appeared* when it is present now
and was absent, or unknown, before. It *vanished* when it was present
before and is absent now. On a target's first observation, a
present appearance keyword already counts as appeared, so a first
observation is not silent. The change notifications are posted once per
token of a comma-separated token list read from the environment. A
separate test-push script merges a stored list of recipient ids with a
comma-separated list of extra ids from the environment, without repeating
anyone.

The model covers that core:

- `wrappers.dfy`: `Option`, standing for Python's `None` and for the
  `x or []` fallback.
- `seqs.dfy`: list-comprehension filtering, order-preserving
  de-duplication (the keys of a Python dict, `dict.fromkeys`),
  subsequences and first occurrences.
- `text.dfy`: the `str` operations used, namely `lower` (ASCII),
  substring `in`, `strip` (the `str.isspace` characters), `split` on one
  character and `join`.
- `keywords.dfy`: `check_keywords`. A Python dict is modelled as a
  `PresenceMap`, holding the key insertion order and the contents. The
  specification function `Evaluate` is implemented by the loop method
  `CheckKeywords`.
- `watch.dfy`: the loop of `main` over the targets. It holds the
  appeared/vanished computations and the message text. The specification
  functions `Step` (one target) and `Run` (the whole pass) are implemented
  by the loop method `Detect`. The file also holds their properties:
  when a notification is sent, no re-notification on an unchanged page,
  which records change, and ordering. It ends with a worked
  appear/vanish cycle.
- `recipients.dfy`: the token list of `line_notify`, and
  `get_recipients` of the test-push script.

The page text of a target is an input, `Option<string>`, where `None`
means the fetch raised. The state key of a target is a function parameter
`keyOf(name, url)`.

## Model

| member | source | states |
|---|---|---|
| Keywords.Matches | main.py:33 | a match needs a keyword no longer than the text, and the empty keyword always matches |
| Keywords.PresenceMap.Put | main.py:34-36 | `found[kw] = v`: the contents take the new value; a new key goes to the end of the insertion order, an existing key keeps its place; distinct keys matching the contents is preserved |
| Keywords.Evaluate | main.py:29-37 | the result's keys are exactly the given keywords, each listed once in first-listed order, and a keyword maps to true iff its lower-cased form occurs in the lower-cased text |
| Keywords.CheckKeywords | main.py:29-37 | the loop that fills the dict one keyword at a time returns exactly `Evaluate(text, keywords or [])` |
| Keywords.EvaluateSnoc | main.py:32-36 | evaluating one more keyword is one more dict assignment with that keyword's match result |
| Keywords.EvaluateNoKeywords | main.py:30-32 | an empty keyword list gives the empty dict; with `CheckKeywords` mapping `None` to the empty list, so does `None` |
| Keywords.MatchIgnoresCase | main.py:31-33 | matching is case-insensitive: lower-casing the text or the keyword first changes nothing |
| Keywords.MatchesIffOccurs | main.py:33 | a keyword matches iff its lower-cased form occurs at some position of the lower-cased text; the empty keyword always matches |
| Keywords.EvaluateExample | main.py:29-37 | `check_keywords("FOO bar", ["foo"])` is `{"foo": True}` |
| Text.Lower | main.py:31 | lower-casing keeps the length and maps each character to its lower case, and the result holds no upper-case letter |
| Text.IsSpace | main.py:41 | the characters `str.isspace` accepts; none of them is an upper-case letter or a comma |
| Text.LowerIdempotent | main.py:31-33 | lower-casing twice is lower-casing once |
| Text.Contains | main.py:33 | `sub in s` needs `sub` no longer than `s`, and the empty string is in every string |
| Text.ContainsIffOccurs | main.py:33 | the recursive substring test agrees with "some position starts a copy of the keyword" |
| Text.ContainsFirstChar | main.py:33 | a string containing a non-empty keyword contains that keyword's first character |
| Text.TrimStart | main.py:41 | the left strip is a suffix of its input, everything dropped is white space, and it does not start with white space |
| Text.TrimEnd | main.py:41 | the right strip is a prefix of its input, everything dropped is white space, and it does not end with white space |
| Text.Strip | main.py:41 | `strip` is no longer than its input and leaves no white space at either end |
| Text.StripSpec | main.py:41 | `strip` leaves no white space at either end and is a contiguous slice of its input with only white space around it |
| Text.StripKeepsOnly | main.py:41 | `strip` introduces no character that was not in its input |
| Text.StripOfStripped | main.py:41 | a string without white space at either end is left unchanged by `strip` |
| Text.StripIdempotent | main.py:41 | stripping twice is stripping once |
| Text.Join | main.py:101 | joining no lines gives the empty string, and a join begins with its first line |
| Text.JoinFirstTwo | main.py:101 | a `"\n".join` of three or more lines begins with the first two lines, each followed by the separator |
| Text.Split | main.py:41 | `split(",")` gives at least one piece, and no piece holds the separator |
| Text.JoinSplit | main.py:41 | joining the pieces of a split with the separator gives back the original string |
| Text.SplitAfterPiece | main.py:41 | splitting a string that starts with a separator-free piece puts that piece at the front of the first piece |
| Text.SplitJoin | main.py:41 | splitting a join of one or more separator-free pieces gives the pieces back |
| Seqs.Filter | main.py:89-91 | the comprehension keeps exactly the elements that satisfy the condition, and never more elements than its input |
| Seqs.FilterMultiset | main.py:41 | the comprehension keeps every copy of a satisfying element and no copy of any other, so repeated pieces are not collapsed |
| Seqs.FilterIsSubsequence | main.py:89-91 | the comprehension keeps its input's order |
| Seqs.FilterEmpty | main.py:93 | the comprehension is empty iff no element satisfies the condition |
| Seqs.FilterAll | main.py:41 | a comprehension whose condition holds everywhere keeps everything |
| Seqs.Dedup | test_push.py:8 | `dict.fromkeys` keeps the same elements, each once, and is no longer than its input |
| Seqs.FirstIndex | test_push.py:8 | the first position of an element holds that element, and no earlier position does |
| Seqs.FirstIndexAppend | test_push.py:8 | appending does not move a first occurrence |
| Seqs.DedupFirstOccurrenceOrder | test_push.py:8 | de-duplication lists elements in the order of their first occurrences |
| Seqs.DedupPrefix | test_push.py:8 | de-duplicating `a + b` begins with the de-duplication of `a` |
| Seqs.DedupOfDistinct | test_push.py:8 | a list without repetitions is its own de-duplication |
| Seqs.SubsequenceOfTail | main.py:89-91 | a subsequence of a list's tail is a subsequence of the list |
| Seqs.SubsequenceDropHead | main.py:89-91 | dropping the first element of a subsequence leaves a subsequence |
| Watch.Previous | main.py:73-74 | a stored record is returned as it is; with no stored record, no keyword counts as true before |
| Watch.Fresh | main.py:85-86 | both fresh readings are well-formed dicts |
| Watch.Appeared | main.py:89 | a keyword is listed iff it is true in the current appear dict and false or absent in the previous one; the list is empty iff no current key qualifies; it follows the current dict's order |
| Watch.Vanished | main.py:91 | a keyword is listed iff it was true in the previous vanish dict and is false now (a keyword absent before never vanishes); empty iff none qualifies; it follows the current dict's order |
| Watch.Bullets | main.py:97 | one `- kw` line per keyword, in order |
| Watch.MessageLines | main.py:94-100 | the first line is the change header with the target name, the second is the url, and the length counts a heading plus one line per keyword for each non-empty list |
| Watch.MessageListsKeywords | main.py:95-100 | the appeared section comes first, under its heading and with one bullet per keyword in order, and the vanished section comes last in the same form |
| Watch.Message | main.py:94-101 | the joined block starts with the change header naming the target, a line break and the url |
| Watch.MessageStartsWithHeader | main.py:94-101 | a joined message starts with the header line and the url line |
| Watch.Step | main.py:66-107 | a failed fetch leaves the state unchanged and emits nothing; a successful one replaces exactly this target's record with the fresh readings and leaves every other key, and its record, unchanged |
| Watch.StepNotifiesIffChanged | main.py:76-101 | a target is notified iff its fetch succeeded and some appearance keyword is present now without having been true before, or some vanish keyword true before is absent now |
| Watch.AppearedIffNew | main.py:85-89 | the appeared list is non-empty iff a listed appearance keyword matches now and was not true in the previous dict |
| Watch.VanishedIffGone | main.py:86-91 | the vanished list is non-empty iff a listed vanish keyword was true in the previous dict and does not match now |
| Watch.FirstObservation | main.py:74-93 | on a target's first observation it is notified iff one of its appearance keywords is present |
| Watch.StepNotificationHeader | main.py:94-101 | every notification block starts with the target's header line and url line |
| Watch.StepOnStoredReading | main.py:89-107 | reading a page whose readings are already stored changes nothing and notifies nothing |
| Watch.StepIdempotent | main.py:89-107 | a second pass over the same page text notifies nothing and leaves the state as the first pass left it |
| Watch.Run | main.py:64-107 | a pass over the targets in list order emits at most as many notifications as there are targets |
| Watch.RunAtMostOnePerTarget | main.py:64-101 | each target adds at most one notification to those of the targets before it |
| Watch.Detect | main.py:64-107 | the loop over the targets, which skips failed fetches with `continue`, ends with exactly the state and notifications of `Run` |
| Watch.RunPrefix | main.py:64-101 | notifications are collected in target-list order: those of the first `n` targets begin the pass's list |
| Watch.RunKeepsUntouchedKeys | main.py:76-107 | a key that no successfully fetched target maps to keeps its record, or its absence |
| Watch.RunStoresLastReading | main.py:104-107 | a successfully fetched target's record is its fresh reading unless a later fetched target shares its key |
| Watch.RunIdempotent | main.py:66-107 | with distinct keys, re-running the pass over the same page texts notifies nothing and changes no record |
| Watch.RerunPrefix | main.py:66-107 | over a state that already holds every fresh reading, each prefix of the pass is a no-op |
| Watch.WatcherReading | main.py:85-86 | the readings stored for a one-keyword target record exactly whether each keyword matches |
| Watch.CycleFirst | main.py:89-93 | a first page holding only the vanish keyword sends nothing |
| Watch.CycleSecondChanges | main.py:89-91 | when the appearance keyword comes and the vanish keyword goes, each is the only keyword in its list |
| Watch.CycleSecond | main.py:89-107 | that second page stores its readings and sends one block naming both changes |
| Watch.CycleThird | main.py:89-93 | after that, no third page sends anything, since losing the appearance keyword or regaining the vanish keyword is never reported |
| Watch.AppearVanishCycle | main.py:66-107 | the three pages in sequence send nothing, one block, then nothing |
| Watch.VacancyMatches | main.py:33 | "vacancy" and "full" each match themselves and not each other |
| Watch.VacancyScenario | main.py:66-107 | the cycle instantiated with "vacancy" appearing and "full" vanishing |
| Recipients.StripAll | main.py:41 | stripping each piece keeps the number and order of the pieces |
| Recipients.StripAllPieces | main.py:41 | stripped comma-free pieces are stripped and comma-free |
| Recipients.CommaList | main.py:40-41 | the token list holds only non-empty, stripped, comma-free pieces; it holds every non-empty stripped piece, as many times as it occurs; it keeps the pieces' order |
| Recipients.KeepNonEmpty | main.py:41 | dropping the empty stripped pieces keeps every non-empty one, with all its copies, in order |
| Recipients.CommaListOfEmpty | main.py:40-44 | an unset or empty variable gives no tokens |
| Recipients.StripAllOfStripped | test_push.py:7 | stripping already stripped entries changes nothing |
| Recipients.CommaListOfJoin | test_push.py:7 | parsing `",".join(items)` gives back the items when each is non-empty, stripped and comma-free |
| Recipients.GetRecipients | test_push.py:5-8 | the result has no duplicates; it holds exactly the stored ids and the parsed extra ids; it is no longer than both together; it follows their first-occurrence order |
| Recipients.RecipientsStartWithIds | test_push.py:8 | when the stored ids have no repetitions, the result starts with them exactly |

## Left out

- Fetching and HTML handling (`fetch_html`, `scope_html`, text extraction, main.py:17-27 and 82-83) are network and library code. The extracted text of each page, or `None` when fetching raised, is an input. Targets therefore carry no `scope_selector`.
- The state key is SHA-1 truncated to 16 hex digits (main.py:73). It is the parameter `keyOf`, which may collide. `RunIdempotent` requires distinct keys for the fetched targets.
- `jitter_sleep`, the timestamped body around the notification blocks, saving the state before notifying, and the LINE posts (main.py:12-15, 43-54, 109-117) are randomness, clocks and I/O. `Detect` returns the state and the notification blocks.
- Reading `targets.yaml`, `gist_state.py` (loading and saving the state and `recipients.json`) and the test-send `main` of test_push.py are I/O. `GetRecipients` takes the stored ids and the environment string as parameters.
- A target missing `name` or `url` raises `KeyError` in the source. The model's `Target` always has both.
- Only the fetch is inside `try` (main.py:76-80). Any other error stops the whole pass, so nothing is saved and nothing is sent. Examples are an invalid `scope_selector`, which makes `select_one` raise (main.py:26), and a keyword or name that is not a string, which makes `kw.lower()` (main.py:33) or `name + "|" + url` (main.py:73) raise. These aborted passes are not modelled: a `None` page means only "skip this target".
- The stored state is JSON of any shape in the source. The model types it as dicts from keyword to boolean, as `main` writes them.
- Text.Lower: lower-cases ASCII letters only, not the full Unicode mapping of `str.lower`.
- Keywords.PresenceMap: its equality also compares key order, which Python dict equality ignores. Every statement in the model is about maps built the same way, so both agree there.
