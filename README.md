# Bilibili comment monitor — a Dafny model

The monitor watches some Bilibili videos for new comments. At start-up a
menu chooses the videos, which are saved in a SQLite database. Each round,
for every chosen video, it fetches the newest top-level comments. It then
processes each comment, the replies embedded in it and, when the comment
reports more replies than it embeds, every page of its hidden replies.

A comment whose `rpid` has not been seen before is handled in three steps:

- it is added to the video's in-memory seen set;
- it is inserted (or ignored) in the `seen_comments` table;
- it becomes a notification record, labelled as a top-level comment or as a
  reply to a named user.

The new records are sorted by time. When webhooks are enabled they are
posted as one Markdown message. A separate script logs in by QR code. It
polls a status endpoint until the login succeeds or fails, and then saves
the session cookies as one `k=v; k=v` string.

The model is split into these modules:

- `Text`: the Python string built-ins the core relies on, with their
  properties. These are `strip`, `split`, `join`, `replace`, `int` and
  `f"{n}"`.
- `Database`: the two tables as a class `Store` with `seq`/`map` fields.
- `Api`: the JSON fields the monitor reads.
- `Fetch`: the paged sub-reply loop, run against a sequence of page
  responses.
- `Sorting`: Python's stable `sorted` by time.
- `Monitor`: comment processing and one video's check. `VideoTarget` is the
  per-video `{"title", "seen_ids"}` entry, mutated in place.
- `Notifier`: the webhook gate and the message assembly.
- `Login`: the QR poll state machine and the cookie string.
- `Menu`: choosing and removing saved videos, and the wait banner's
  minutes/seconds split.

The network, the clock, the terminal and the file system become parameters.
They are:

- the page responses for each root comment
  (`pages: Rpid -> seq<PageResponse>`);
- the list of poll responses;
- the webhook file's text (`Option<string>`);
- a `formatTime` function for `strftime`;
- a flag saying whether the cookie file write succeeds.

The model follows the code. A video's state is only its set of seen rpids.
Hidden replies are fetched whenever the current `rcount` exceeds the number
of embedded replies. No reply-count baseline is stored between rounds, and
there is no max rule.

## Model

| member | source | states |
|---|---|---|
| Text.Strip | notifier.py:16 | `strip()` is empty exactly when the text is all whitespace; otherwise it starts and ends with non-space; it is the slice after the leading whitespace, and only whitespace is dropped on either side |
| Text.ShowNat | main.py:263 | `f"{n}"` is a non-empty digit string without a leading zero |
| Text.DecimalValueOfShowNat | main.py:170 | `int` reads back the number `f"{n}"` printed |
| Text.DecimalValueLeadingZero | main.py:195 | a leading zero does not change the value `int` reads |
| Text.Split | main.py:170 | `split(',')` always gives at least one piece and no piece contains the separator |
| Text.JoinSplit | main.py:170 | joining the pieces of a split with the separator gives the text back |
| Text.SplitWithoutSeparator | main.py:170 | text without a separator splits into itself alone |
| Text.SplitAtSeparator | main.py:170 | splitting happens at the first separator |
| Text.SplitJoin | main.py:170 | splitting a join of separator-free pieces gives the pieces back |
| Text.JoinAppend | notifier.py:53 | joining one more line appends the separator and the line |
| Text.WithoutNonEmpty | main.py:168 | a character outside the dropped set survives the filter, so the result is not empty |
| Text.JoinMembers | main.py:170 | every character of a join comes from the separator or from a piece |
| Text.Join | notifier.py:53 | joining no pieces gives the empty string; joining one gives that piece |
| Text.RemoveChar | main.py:168 | `replace(c, '')` is the filter `Without` that keeps every other character in order; no `c` remains |
| Text.RemoveTwice | notifier.py:41-42 | two `replace` calls equal one filter that drops both characters |
| Text.RemoveCharAppend | notifier.py:41-42 | `replace` distributes over concatenation |
| Text.WithoutKeepsOthers | notifier.py:41-42 | filtering keeps only characters of the input outside the dropped set, and leaves clean text unchanged |
| Database.InsertVideo | database.py:40-50 | the insert fails exactly when the oid or the bv_id is taken; on success the row is appended and both keys stay unique |
| Database.DeleteVideo | database.py:52-58 | no row with the oid remains; every other row is kept and nothing new appears; an absent oid changes nothing |
| Database.DeleteVideoKeepsKeys | database.py:52-58 | deleting keeps both keys unique and removes exactly one row when the oid was present |
| Database.DeleteVideoKeepsOrder | database.py:52-58 | with unique keys, deleting the oid of the row at position p leaves exactly the rows before p followed by the rows after p, in their order |
| Database.UniqueKeysSplit | database.py:13-15 | the rows after the first keep unique keys and share neither key with the first |
| Database.UniqueKeysCons | database.py:13-15 | a row sharing neither key with a table of unique keys can be put in front of it |
| Database.NewestFirst | database.py:37 | `ORDER BY added_at DESC` lists the rows in reverse insertion order |
| Database.InsertOrIgnore | database.py:71 | the rpid is present afterwards; existing rpids keep their oid; a new rpid gets this oid |
| Database.RecordAll | database.py:67-72 | recording a set of ids adds exactly those keys |
| Database.RecordAllInsert | database.py:71 | one more insert-or-ignore is recording one more id |
| Database.FirstWriterWins | database.py:71 | a second insert of the same rpid, under any oid, changes nothing |
| Database.LoadAfterInsert | database.py:60-72 | after an insert, loading the inserting video gains the rpid unless another video owns it; other videos' loads are unchanged |
| Database.LoadAfterRecordAll | database.py:60-72 | loading after recording ids gives the old ids plus those not owned before |
| Database.Store.constructor | database.py:5 | a fresh store has no schema and empty tables |
| Database.Store.InitDb | database.py:7-31 | `CREATE TABLE IF NOT EXISTS` readies the schema and keeps existing rows |
| Database.Store.AddVideo | database.py:40-50 | returns True exactly when both keys are free, and then appends the row; otherwise nothing changes |
| Database.Store.RemoveVideo | database.py:52-58 | returns `rowcount > 0`, i.e. whether the oid was present; the rows become `DeleteVideo` of the old rows; `seen_comments` is untouched |
| Database.Store.GetMonitoredVideos | database.py:33-38 | every row, newest first |
| Database.Store.LoadSeenComments | database.py:60-65 | returns `SeenFor` of the table: exactly the rpids stored under the oid |
| Database.Store.AddComment | database.py:67-72 | the table becomes the insert-or-ignore of the rpid |
| Fetch.StopPage | main.py:116-133 | the first page that is not code 0 with a non-empty reply list; every earlier page is |
| Fetch.FetchAllSubReplies | main.py:112-134 | requests pages 1, 2, … in order, stops at the first failed, non-zero or empty page, and returns the replies of all earlier pages concatenated in page order |
| Fetch.StopPageIsFirst | main.py:116-133 | the stop page is the only page number with that property |
| Fetch.ConcatPrefix | main.py:125 | the concatenation of a longer prefix of pages extends the shorter prefix's concatenation by the pages in between |
| Fetch.SubRepliesPrefix | main.py:118-134 | `SubReplies`, the collected list, is the replies of the pages before the stop page, all of which were accepted, and is a prefix of all the pages' replies |
| Fetch.SubRepliesIgnoresLaterPages | main.py:123-133 | responses after the stopping page never reach the result |
| Fetch.ConcatMembers | main.py:125 | every returned reply comes from an accepted page |
| Sorting.InsertPermutes | main.py:346 | inserting adds exactly one element and loses none |
| Sorting.InsertSorted | main.py:346 | inserting into a sorted list keeps it sorted |
| Sorting.InsertSortedBefore | main.py:346 | inserting an element earlier than the last of a sorted list keeps it sorted |
| Sorting.SortByTime | main.py:346 | the result is ordered by time and is a permutation of the input |
| Sorting.OfTimeAppend | main.py:346 | the records with a given time, after appending one record |
| Sorting.InsertOfTime | main.py:346 | inserting puts a record after every record with the same time |
| Sorting.InsertOfTimeBefore | main.py:346 | the same, when the record goes before the last element |
| Sorting.SortByTimeStable | main.py:346 | records with equal times keep their relative order, as Python's sort is stable |
| Sorting.SortByTimeOfSorted | main.py:346 | a list already in time order is returned unchanged |
| Sorting.SortByTimeIdempotent | main.py:346 | sorting twice equals sorting once |
| Monitor.AtName | main.py:237-239 | the first `at_details` entry whose mid equals `parent_str` gives the name; with no such entry the parent's name is used |
| Monitor.TypeLabelKinds | main.py:233-245 | `TypeLabel` is "主评论" exactly when the parent name is falsy; otherwise it is "回复@" plus the first matching `at_details` name, or the parent's name when none matches |
| Monitor.MakeRecord | main.py:247-252 | the record carries the reply's user, message and ctime, and its type is "主评论" exactly when the parent name is falsy |
| Monitor.RunClosedForm | main.py:225-253 | `Run`, the calls of `ProcessOne` in order: processing a sequence of replies leaves every visited rpid seen; only the first visit of each previously unseen rpid yields a record, in visiting order |
| Monitor.RunClosedFormSnoc | main.py:225-253 | the same closed form after one more visit |
| Monitor.RpidsOfSnoc | main.py:229 | visiting one more reply adds its rpid |
| Monitor.FirstSeenFresh | main.py:228-229 | the record-yielding visits are visits of the input with unseen rpids; no rpid yields twice; together they cover every new rpid |
| Monitor.FirstSeenFreshSnoc | main.py:228-229 | the same three facts after one more visit |
| Monitor.RpidsOfDistinct | main.py:228-229 | distinct rpids are as many as the visits |
| Monitor.RpidsOfEmpty | main.py:228 | visits without rpids are no visits |
| Monitor.OneRecordPerNewRpid | main.py:225-253 | a check yields exactly one record per rpid it adds to the seen set |
| Monitor.RunAgainFindsNothing | main.py:228 | processing the same replies again finds nothing new and changes nothing |
| Monitor.RunAppend | main.py:318-342 | processing two lists in turn is processing their concatenation |
| Monitor.VisitsContain | main.py:318-342 | the replies one comment causes are visited by the round |
| Monitor.TickSeen | main.py:311-342 | after a check the seen set is the old one plus every visited rpid: each top-level comment, each embedded reply and, when `rcount` exceeds the embedded count, every reply on the pages before the stopping page; nothing else is added |
| Monitor.TickFound | main.py:318-342 | the records of a check (`Tick` over `Visits`, each comment's `CommentVisits`) are one per rpid it adds, each built by `MakeRecord` from a visited reply whose rpid was unseen |
| Monitor.TickAgainFindsNothing | main.py:311-342 | a second check of the same comments and pages finds nothing and adds no rpid |
| Monitor.RestartLoadsSameIds | main.py:296-300 | when the seen set was loaded from the table and no other video owns a visited rpid, loading after the check's inserts gives the in-memory seen set |
| Monitor.RecordStep | main.py:229-230 | the table after one more insert equals recording the enlarged seen set's difference |
| Monitor.RecordTwice | main.py:229-230 | recording two differences in turn records their union |
| Monitor.VideoTarget.constructor | main.py:296-300 | a video's entry starts from the ids loaded from the table for its oid |
| Monitor.VideoTarget.ProcessComment | main.py:225-253 | a record is returned exactly when the rpid was unseen, and then it is the reply's record; the rpid is seen afterwards; the table gets an insert-or-ignore only for a new rpid |
| Monitor.VideoTarget.ProcessReplies | main.py:325-329 | the loop over replies with one parent name appends the records `Run` specifies and records the new rpids in the table |
| Monitor.VideoTarget.CheckVideo | main.py:311-361 | the seen set becomes `Tick`'s; the table records exactly the new rpids under this oid; the records are sorted by time; a message is built exactly when webhooks are enabled, the check found something and the file is configured, and it carries the header, separator and body of the sorted records |
| Notifier.CheckWebhookConfigured | notifier.py:9-18 | configured exactly when the file's text is present and not all whitespace |
| Notifier.Sanitize | notifier.py:41-42 | no backtick or asterisk remains, and exactly the other characters are kept in order |
| Notifier.SanitizeKeepsOthers | notifier.py:41-42 | sanitising adds nothing, leaves clean text unchanged and is idempotent |
| Notifier.HeaderMentions | notifier.py:36 | the title and the count can be read back from `Header` at fixed offsets |
| Notifier.BlockFields | notifier.py:44-49 | a `Block` opens with the user tag, the sanitised user, the type tag and the type label, and ends with the content tag, the sanitised message, the time tag and the time |
| Notifier.MessageLines | notifier.py:35-51 | the heading, a separator, then each comment's block followed by a separator: 2 + 2n lines in order |
| Notifier.JoinTwoMore | notifier.py:53 | joining a block and a separator after a prefix |
| Notifier.Layout | notifier.py:35-51 | a message with n blocks has 2 + 2n lines |
| Notifier.LayoutShape | notifier.py:35-51 | where the heading, each block and each separator sit |
| Notifier.LayoutStep | notifier.py:50-51 | one more comment appends its block and then a separator |
| Notifier.JoinLayout | notifier.py:53 | the joined message is the heading, a newline, the separator and then, per block, a newline, the block, a newline and the separator |
| Notifier.SendWebhookNotification | notifier.py:21-59 | nothing is sent unless the file is configured; otherwise the URL is the stripped, non-empty file text and the content is the joined message |
| Login.StopIndex | login_bilibili.py:70-95 | the first response that is neither 86090 nor 86101; every earlier one is |
| Login.NoticesAdvance | login_bilibili.py:83-97 | after one more waiting response, the notices printed so far followed by those of the rest are still the notices of the whole run |
| Login.PollForLoginStatus | login_bilibili.py:65-104 | polling ends at the first response that is not 86090/86101: code 0 logs in, 86038 expires, a failed request is a network error, any other code is unknown; running out of responses is the user's interrupt; the printed notices are those of the responses before the stop |
| Login.LoggedInIff | login_bilibili.py:80-82 | `Ending` at the stop gives a session exactly when some response has code 0 and every earlier one kept polling |
| Login.CountsAppend | login_bilibili.py:84-97 | notice counts add up over concatenation |
| Login.NoticeCounts | login_bilibili.py:84-97 | `Notices` has one progress dot per waiting response; the scan message appears once when some response was 86090, and never otherwise |
| Login.ScanNoticePosition | login_bilibili.py:83-86 | the scan message comes right before the dot of the first 86090 response |
| Login.CookieString | login_bilibili.py:116 | no cookies give the empty string; one cookie gives `k=v` |
| Login.SpaceAfterFirst | login_bilibili.py:116 | every piece after the first is preceded by a space |
| Login.JoinSemicolonSpace | login_bilibili.py:116 | joining with "; " is joining with ";" after a space is put before every later piece |
| Login.JoinSpaced | login_bilibili.py:116 | a leading space on every piece, joined with ";", is a leading space on the join with "; " |
| Login.CookieStringPieces | login_bilibili.py:116 | when no name or value contains ';', splitting the saved string at ';' gives back every `k=v` pair in order, each after the first behind one space |
| Login.SaveCookieFromSession | login_bilibili.py:107-125 | a missing session returns False and writes nothing; otherwise the cookie string is written and the result is whether the write succeeded |
| Menu.ParseIndex | main.py:170 | a parsed segment gives an index of at least -1 |
| Menu.ParseIndexList | main.py:170 | the list comprehension succeeds exactly when every segment parses, giving one index per segment in order |
| Menu.ParseIndexOfNumber | main.py:170 | the number shown beside a row parses back to that row's 0-based index |
| Menu.ParseIndicesOfNumbers | main.py:168-170 | `ParseIndices` of comma-separated row numbers gives exactly those rows' 0-based indices |
| Menu.NumbersAreNumberChoice | main.py:168 | comma-separated row numbers pass `IsNumberChoice`, the test for the numeric branch |
| Menu.NumbersHaveNoComma | main.py:168 | a typed row number contains no comma |
| Menu.NumbersParse | main.py:170 | each typed row number parses to its 0-based index |
| Menu.ChooseKeys | main.py:171-176 | the keys after choosing are those selected before plus the oids the valid indices pick |
| Menu.PickedOidsSnoc | main.py:171-176 | the oids a list picks are those its prefix picks plus the one its last index picks, if valid |
| Menu.ChooseStep | main.py:171-176 | applying one more index adds its row when it is valid and changes nothing otherwise |
| Menu.ChooseEffect | main.py:171-176 | `Choose` adds entries only for valid indices; every oid a valid index picks gets the same value whatever the selection held before; all other entries are untouched |
| Menu.ChooseValues | main.py:171-176 | with the table's unique keys, every oid a valid index picks maps to that row's title and bv_id |
| Menu.ChooseIdempotent | main.py:171-176 | entering the same numbers again changes nothing |
| Menu.SelectVideos | main.py:168-179 | input whose list comprehension raises changes nothing; otherwise the selection gains exactly the oids the valid indices name |
| Menu.ParseInt | main.py:195 | `int` fails exactly when the text is neither digits nor a sign followed by digits |
| Menu.ParseIntOfShowInt | main.py:195 | `int` reads back any printed integer |
| Menu.ParseIntOfDigits | main.py:195 | a string of digits reads as its decimal value |
| Menu.ParseIntOfNegative | main.py:195 | a minus sign before digits reads as the negated value |
| Menu.ParseIntOfPositive | main.py:195 | a plus sign before digits reads as the value |
| Menu.ParseIntLeadingZero | main.py:195 | a leading zero changes nothing, so "01" reads as 1 |
| Menu.RemoveTarget | main.py:191-198 | a row is targeted exactly when `int(remove_choice) - 1` names a listed row and the answer is 'y', and then it is that row |
| Menu.RemoveTargetOfNumber | main.py:191-197 | typing a row's number targets that row exactly when the answer is 'y' |
| Menu.RemoveFromMenu | main.py:191-208 | the targeted row is deleted from the table, and its oid leaves the selection exactly when the delete removed a row |
| Menu.SplitMinutes | main.py:261-262 | minutes times 60 plus seconds is the interval, and the seconds lie in 0..59 |
| Menu.SplitMinutesUnique | main.py:261-262 | the quotient and remainder are the only pair with those two properties |
| Menu.WaitMessageForm | main.py:261-263 | `WaitMessage` shows minutes and seconds for intervals of a minute or more, and only seconds otherwise |

## Left out

- HTTP requests, WBI request signing, the QR code image and sleeps are not modelled. Printing is not modelled either, apart from the login poll's scan message and progress dots (`Login.Notices`). Responses are inputs, as the parameters above describe.
- `fetch_latest_comments` and `get_information` are network calls. The newest comment page is an input of `CheckVideo`. The menu's 'a' branch adds videos through `get_information`; only its database step (`Store.AddVideo`) is modelled.
- The monitoring round's outer loop over all videos, the interval wait with its Enter trigger, and the retry after an exception are not modelled. `CheckVideo` models one video's share of a round.
- `Fetch.FetchAllSubReplies`: each root comment's responses are a finite sequence. A request past its end counts as a failed request, which ends the loop as the source's exception handler does.
- `Login.PollForLoginStatus`: the poll responses are a finite sequence. Running out of them stands for the user's Ctrl+C (`KeyboardInterrupt`), which returns None like the other failures.
- `Api.Record`: the time is the integer `ctime`. Its conversion to an Asia/Shanghai datetime preserves order, and `formatTime` stands for the `strftime` text.
- `Menu.ParseIndex` and `Menu.ParseInt` accept ASCII digits only. Python's `int` also accepts other Unicode decimal digits and `_` between digits, and `isdigit` also accepts superscript digits that `int` then rejects.
- `Menu.ParseIndex`: its contract states only the lower bound. Its round trip with typed row numbers is `Menu.ParseIndicesOfNumbers`.
- The main menu choice is taken after the source's `strip().lower()`; lower-casing does not change digits, commas or spaces. In the 'r' branch, `RemoveTarget`'s `removeChoice` is the stripped answer and its `confirm` is the lower-cased answer, which is not stripped, so "y " is not a yes.
- The interval prompt's float parsing (`float(...)`, `int(minutes * 60)`) is not modelled; floating point is out of scope. The banner's split takes the integer seconds.
- `Database.Store.GetMonitoredVideos`: rows are ordered by insertion. SQLite's `added_at` has one-second resolution, so rows added within the same second may come back in another order.
- SQLite itself (files, connections, transactions, the `seen_at`/`added_at` timestamps, the index) is not modelled. SQLite does not enforce the `ON DELETE CASCADE` clause unless foreign keys are switched on, which the source never does. So removing a video leaves its `seen_comments` rows, as `Store.RemoveVideo` states.
- `Menu.SelectVideos`: the selection is a map, so the insertion order of the source's dictionary (the order in which chosen titles are listed) is not modelled.
- `main.py` runs the login script as a blocking child process (`subprocess.run`) and then reads the cookie file again. The process launch and the file hand-over are not modelled; the login script is modelled on its own.
