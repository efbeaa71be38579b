# On-call schedule assistant — a Dafny model

The assistant is a chat bot. It answers questions about a PagerDuty on-call
schedule. It has two sides:

- **The schedule client `PagerDutySchedule`.** It asks the PagerDuty service for
  the schedule's overrides and users, and answers three questions: who is on call
  now, who is on call next, and when a named engineer is next on call.
  - Override starts come from the service as `2018-06-27T18:00:00+01:00`. The
    client deletes the offset's colon, compares the results as plain strings
    against the current time, takes the least upcoming one, puts the colon back,
    and looks that start up in the override list.
- **The dispatcher.** It picks the first chat message that mentions the bot,
  splits off the `<@ID>` mention, and decides from the command's leading keyword
  and a few substrings which lookup to run or which fixed reply to give.

The model does the following:

- The service's decoded replies (the override, user and schedule lists) and the
  current time are ordinary inputs. The time is passed already formatted as
  `%Y-%m-%dT%H:%M:%S%z`.
- Each Python exception the model keeps becomes an `Outcome.Raises` value
  naming its cause (`Results.Failure`). The failing `.group(1)` of the name
  pattern is the action `Assistant.NameNotFound` instead. The exceptions the
  model does not keep are listed under "Left out".
- The regular expressions become explicit scanners that keep Python's rules:
  - a lazy `.*?` takes the first place the rest of the pattern matches;
  - `.` never crosses a line break;
  - `\s` is the `str.isspace` set.
- Python's string comparison is `Text.Less`, lexicographic by code point. It is
  proved to be a strict total order.

Modules:

| module | file | what |
|---|---|---|
| `Results` | results.dfy | `Option`, `Outcome`, and the failure kinds |
| `Text` | text.dfy | Python string helpers: the string order, `in`, `startswith`, `strip`, `lower`, `replace`, and a regex `(.*)` group |
| `Timestamps` | timestamps.dfy | the `_convert_timestamp` regex and the rebuild regex, and the round trip between them |
| `PagerDuty` | pagerduty.dfy | the override and user records, the lookup specifications, and the class `PagerDutySchedule` |
| `PagerDutyProperties` | pagerduty_properties.dfy | what the lookups promise, over the whole override list |
| `Assistant` | assistant.dfy | `parse_direct_mention`, `parse_bot_commands`, the name pattern, and the `handle_command` decision chain |

Four behaviours of the code are easy to misread. The model follows the code:

- **Converting twice fails.** Converting an already converted start fails,
  because the pattern needs `+HH:` (`Timestamps.ConvertTwiceFails`). The
  conversion is therefore not idempotent.
- **No upcoming start raises.** When no start lies after now, `min` of an empty
  generator raises (`EmptyMinimum`). The lookup does not answer "nothing".
- **`lookup_user_name` checks the first record.** It returns `(None, None)` only
  when the first user record is an empty dict. An empty user list raises
  `IndexError` instead.
- **`when_is_on_call` can answer for someone else.** It selects from the named
  engineer's starts, but matches back against the whole override list. So it can
  return another engineer's override that shares the start
  (`PagerDutyProperties.WhenIsOnCallSharedStart`).

## Model

| member | source | states |
|---|---|---|
| Text.LessIsLexicographic | oncall_schedule_assistant/pagerduty.py:76 | the string order used for `ts > now` is the usual lexicographic order: a proper prefix, or a smaller character at the first difference |
| Text.LessTotal | oncall_schedule_assistant/pagerduty.py:76 | any two different strings are ordered one way or the other, so `min` is well defined |
| Text.LessTransitive | oncall_schedule_assistant/pagerduty.py:76 | the string order is transitive |
| Text.LessIrreflexive | oncall_schedule_assistant/pagerduty.py:76 | no string is less than itself |
| Text.LessAsymmetric | oncall_schedule_assistant/pagerduty.py:76 | no two strings are each less than the other |
| Text.ContainsAt | oncall_schedule_assistant/oncall_schedule_assistant.py:45 | the `in` test of a substring holds exactly when the substring occurs at some index |
| Text.Strip | oncall_schedule_assistant/oncall_schedule_assistant.py:31 | the result is a contiguous piece of the input, all the input outside it is whitespace, and it neither starts nor ends with whitespace |
| Text.StripKeepsTrimmed | oncall_schedule_assistant/oncall_schedule_assistant.py:31 | a string with no whitespace at either end is left unchanged by `strip()` |
| Text.Line | oncall_schedule_assistant/oncall_schedule_assistant.py:96 | the `(.*)` group is the longest newline-free prefix: a prefix, without line breaks, ending at the input's end or at a line break |
| Text.LowerIdentifiesCase | oncall_schedule_assistant/pagerduty.py:185 | two strings lower-case to the same string exactly when they differ only in the case of ASCII letters |
| Text.SpacesToPercent | oncall_schedule_assistant/pagerduty.py:114 | built one character at a time, the result has the same length, every space becomes `%`, every other character is kept, and no space is left |
| Timestamps.FindOffset | oncall_schedule_assistant/pagerduty.py:58 | the lazy `.*?\+\d{2}` finds the first `+DD` (with or without the following colon) reachable without crossing a line break, or reports that there is none |
| Timestamps.FindOffsetFirst | oncall_schedule_assistant/pagerduty.py:77 | the scanner returns the first fitting position when nothing before it fits |
| Timestamps.ConvertRemovesColon | oncall_schedule_assistant/pagerduty.py:58-61 | on a one-line string: converting removes exactly the colon of the first `+DD:`, leaving a result one character shorter; it fails exactly when no `+DD:` occurs |
| Timestamps.ConvertThenRebuild | oncall_schedule_assistant/pagerduty.py:77-78 | for any one-line string whose first `+DD` is followed by a colon, what the client's rebuild makes of the converted form is the original string |
| Timestamps.RebuildThenConvert | oncall_schedule_assistant/pagerduty.py:58-59 | for any one-line string holding `+DD`, converting the rebuilt form gives the string back |
| Timestamps.ServiceTimestampConverts | oncall_schedule_assistant/pagerduty.py:58-61 | a service start `YYYY-MM-DDTHH:MM:SS+HH:MM` converts by deleting its 23rd character into the `%z` form, and rebuilds back unchanged |
| Timestamps.ConvertTwiceFails | oncall_schedule_assistant/pagerduty.py:58 | a converted start cannot be converted again: the conversion is not idempotent |
| Timestamps.NegativeOffsetFails | oncall_schedule_assistant/pagerduty.py:58 | a start with a `-HH:MM` offset fails to convert |
| Timestamps.ConvertExample | oncall_schedule_assistant/tests/test_pagerDuty.py:35-40 | `2018-06-27T18:00:00+01:00` converts to `2018-06-27T18:00:00+0100` |
| PagerDuty.EarliestAfter | oncall_schedule_assistant/pagerduty.py:76 | there is a minimum exactly when some timestamp is later than now; it is a member of the list, later than now, and no later than every other timestamp later than now |
| PagerDuty.FirstWithStart | oncall_schedule_assistant/pagerduty.py:80-84 | the index of the first override in list order with the given start, or none when no override has it |
| PagerDuty.ConvertedStarts | oncall_schedule_assistant/pagerduty.py:146-149 | the list `next_on_call` builds is every override's converted start, in order and of the same length; it fails exactly when one start fails to convert |
| PagerDuty.NamedStarts | oncall_schedule_assistant/pagerduty.py:164-168 | the list `when_is_on_call` builds fails exactly when one of the named engineer's starts fails to convert; the other engineers' starts are never converted |
| PagerDuty.NamedStartsMembers | oncall_schedule_assistant/pagerduty.py:164-168 | the list holds exactly the converted starts of the named engineer's overrides |
| PagerDuty.NamedStartsEmpty | oncall_schedule_assistant/pagerduty.py:164-170 | the list is empty exactly when the engineer has no override |
| PagerDuty.WhoIsOnCallNow | oncall_schedule_assistant/pagerduty.py:130-133 | `None` exactly when the user list is empty; a first record with a name returns that name, and any name returned is the first record's; a first record without a name raises |
| PagerDuty.LookupUserName | oncall_schedule_assistant/pagerduty.py:188-191 | raises exactly when the user list is empty, `(None, None)` exactly when the first record is empty; a complete first record returns its `(id, name)`, and any pair returned is the first record's |
| PagerDuty.ScheduleQuery | oncall_schedule_assistant/pagerduty.py:114 | the schedule query is `?query=` followed by the name, of the same length: every space of the name becomes `%`, every other character is kept, and no space is left |
| PagerDuty.UserQuery | oncall_schedule_assistant/pagerduty.py:185 | the user query is `?query=` followed by the lower-cased email: each character is the email's character at that index, lower-cased, and no upper-case letter is left |
| PagerDuty.PagerDutySchedule.constructor | oncall_schedule_assistant/pagerduty.py:16-22 | the service URL and API version are fixed, the token and time zone are the given ones, and no schedule is set |
| PagerDuty.PagerDutySchedule.SetSchedule | oncall_schedule_assistant/pagerduty.py:113-120 | sends the schedule query; with no schedule in the reply it raises and leaves `schedule_id` unchanged, otherwise it sets `schedule_id` to the first schedule's id |
| PagerDuty.PagerDutySchedule.ReturnNextShift | oncall_schedule_assistant/pagerduty.py:75-84 | the loop returns what the specification `NextShift` gives: it raises when nothing is upcoming, raises when the minimum holds no `+DD` to rebuild, and otherwise returns the first override whose start is the rebuilt minimum, or `(None, None, None)` |
| PagerDuty.PagerDutySchedule.NextOnCall | oncall_schedule_assistant/pagerduty.py:146-151 | the collecting loop returns what `NextOnCallOutcome` gives: the converted starts of all overrides, fed to the selection |
| PagerDuty.PagerDutySchedule.WhenIsOnCall | oncall_schedule_assistant/pagerduty.py:164-173 | the collecting loop returns what `WhenIsOnCallOutcome` gives: `(None, None, None)` when the engineer has no override, otherwise the engineer's converted starts fed to the selection against the whole list |
| PagerDutyProperties.ExtraTimestampsIgnored | oncall_schedule_assistant/tests/test_pagerDuty.py:43-62 | adding timestamps that are not upcoming, or no earlier than the current minimum, does not change which override is returned |
| PagerDutyProperties.NextOnCallEarliest | oncall_schedule_assistant/pagerduty.py:144-151 | for service-format starts, `next_on_call` raises exactly when no override starts after now; otherwise it returns an override with the earliest upcoming start, the first in list order with that start |
| PagerDutyProperties.NextShiftFindsOverride | oncall_schedule_assistant/pagerduty.py:77-82 | for a service-format start (one-line, first `+DD` followed by a colon): when an override's converted start is the minimum, the selection returns the first override with that start, at or before it |
| PagerDutyProperties.EarliestBelowMembers | oncall_schedule_assistant/pagerduty.py:76 | the minimum is no later than any upcoming member of the list |
| PagerDutyProperties.WhenIsOnCallWithoutOverrides | oncall_schedule_assistant/pagerduty.py:170-171 | an engineer with no override gets `(None, None, None)` |
| PagerDutyProperties.WhenIsOnCallNoneUpcoming | oncall_schedule_assistant/pagerduty.py:173 | an engineer whose overrides all lie in the past makes the lookup raise |
| PagerDutyProperties.WhenIsOnCallEarliest | oncall_schedule_assistant/pagerduty.py:164-173 | when the engineer's starts are service-format and one of the engineer's overrides is upcoming, some earliest upcoming override of the engineer has the answer's start, and the answer is the first override of the whole list with that start |
| PagerDutyProperties.WhenIsOnCallAnswersForName | oncall_schedule_assistant/pagerduty.py:164-173 | when the engineer's starts are service-format and no one else's override shares a start with the engineer's, any shift returned belongs to the engineer |
| PagerDutyProperties.WhenIsOnCallSharedStart | oncall_schedule_assistant/pagerduty.py:80-82 | an earlier override of another engineer with the same start is what `when_is_on_call` returns |
| PagerDutyProperties.UserQueryIgnoresCase | oncall_schedule_assistant/pagerduty.py:185 | two emails give the same user query exactly when they differ only in letter case |
| Assistant.FindClose | oncall_schedule_assistant/oncall_schedule_assistant.py:96 | the lazy `[WU].+?>` ends at the first `>` reachable without crossing a line break, or there is none |
| Assistant.MentionShape | oncall_schedule_assistant/oncall_schedule_assistant.py:30-31 | `(None, None)` exactly when `^<@(|[WU].+?)>` does not match, so never without a leading `<@`; a mention's id is empty or starts with `W` or `U`, the text starts with `<@id>`, and the message has no whitespace at either end |
| Assistant.FindCloseFirst | oncall_schedule_assistant/oncall_schedule_assistant.py:96 | the scanner stops at the first `>` when no line break lies before it |
| Assistant.MentionSplits | oncall_schedule_assistant/oncall_schedule_assistant.py:30-31 | `<@id>` and a one-line message split back into the id and the stripped message, for any id of at least two characters that starts with `W` or `U` and holds no `>` and no line break |
| Assistant.ShortMentionRejected | oncall_schedule_assistant/oncall_schedule_assistant.py:96 | `<@W>hi` carries no mention, because `.+?` after `W` finds no closing `>` |
| Assistant.BrokenMentionRejected | oncall_schedule_assistant/oncall_schedule_assistant.py:96 | `<@W` followed by a line break, `1>x` carries no mention, because `.` does not cross the line break |
| Assistant.EmptyMentionSplits | oncall_schedule_assistant/oncall_schedule_assistant.py:96 | `<@>` and a one-line message split into the empty id and the stripped message |
| Assistant.ParseBotCommands | oncall_schedule_assistant/oncall_schedule_assistant.py:17-22 | `(None, None, None)` exactly when no event is a subtype-free message mentioning the bot; otherwise the message, channel and user of the first such event |
| Assistant.FindStop | oncall_schedule_assistant/oncall_schedule_assistant.py:50 | the lazy `(.*?)` group ends at the first whitespace that starts `next` or `on`, reachable without crossing a line break, or there is none |
| Assistant.FindNameStart | oncall_schedule_assistant/oncall_schedule_assistant.py:50 | the lazy `^.*?` before `is\s` settles on the leftmost index, reachable without crossing a line break, where `is\s` starts and a stop follows; none exactly when no such index is reachable |
| Assistant.EngineerName | oncall_schedule_assistant/oncall_schedule_assistant.py:50 | the match fails exactly when no reachable `is\s` is followed by a stop; otherwise group 1 runs from the leftmost such `is\s` to the first stop after it |
| Assistant.StopAtShift | oncall_schedule_assistant/oncall_schedule_assistant.py:50 | whether a stop starts at an index does not depend on the text in front of it |
| Assistant.FindStopFirst | oncall_schedule_assistant/oncall_schedule_assistant.py:50 | the group ends at the first stop when no line break lies before it |
| Assistant.NamedLookupStopsAtFirst | oncall_schedule_assistant/oncall_schedule_assistant.py:50-51 | after `when is `, the name runs up to the first stop, even one inside a word |
| Assistant.NamedLookupReadsName | oncall_schedule_assistant/oncall_schedule_assistant.py:50-51 | `when is <name> on call` gives back the whole name when the name holds no stop |
| Assistant.BillGatesIsRead | oncall_schedule_assistant/oncall_schedule_assistant.py:50-51 | `when is Bill Gates on call` asks after `Bill Gates` |
| Assistant.NameCutAtOnion | oncall_schedule_assistant/oncall_schedule_assistant.py:50-51 | `when is Ron onion on call` asks after `Ron` |
| Assistant.AtMostOneKeyword | oncall_schedule_assistant/oncall_schedule_assistant.py:44-73 | no keyword is a prefix of another, so a command opens with at most one |
| Assistant.DefaultUnlessKeyword | oncall_schedule_assistant/oncall_schedule_assistant.py:39-80 | the default message is sent exactly when the command opens with none of `when`, `who`, `what`, `hello`, `but`, `why` |
| Assistant.CapitalisedCommandUnrecognised | oncall_schedule_assistant/oncall_schedule_assistant.py:44-74 | matching is case-sensitive: a command opening with a capital letter gets the default message |
| Assistant.WhenCommands | oncall_schedule_assistant/oncall_schedule_assistant.py:44-54 | for `when` commands, `am i` takes precedence over `on call`, `on call` runs the named lookup, and anything else gets the shrug |
| Assistant.WhatCommands | oncall_schedule_assistant/oncall_schedule_assistant.py:64-68 | for `what` commands, `time is it` asks for the time and anything else gets the shrug |
| Assistant.OtherCommands | oncall_schedule_assistant/oncall_schedule_assistant.py:69-74 | a `hello` command is greeted, and `but` and `why` commands get the shrug, whatever follows |
| Assistant.WhoCommands | oncall_schedule_assistant/oncall_schedule_assistant.py:55-63 | for `who` commands, `next` takes precedence over `on call`, `on call` asks who is on call now, and anything else gets the shrug |
| Assistant.PostedText | oncall_schedule_assistant/oncall_schedule_assistant.py:80 | the posted text is never empty: a non-empty response is posted as is, and no response or an empty one posts the default message |
| Assistant.CannedText | oncall_schedule_assistant/oncall_schedule_assistant.py:54-74 | the shrug, the greeting and the default are the actions answered with fixed text: the shrug posts `¯\_(ツ)_/¯`, the greeting `Hello <@user>!`, and no response the default message |
| Text.Less | oncall_schedule_assistant/pagerduty.py:76 | Python's `<` on strings; `LessIsLexicographic`, `LessIrreflexive`, `LessTransitive`, `LessTotal` and `LessAsymmetric` prove it is the lexicographic strict total order |
| Text.Contains | oncall_schedule_assistant/oncall_schedule_assistant.py:45 | Python's `part in s`; `ContainsAt` proves it holds exactly when the part occurs at some index |
| Text.Lower | oncall_schedule_assistant/pagerduty.py:185 | Python's `lower()` on ASCII letters, character by character; `LowerIdentifiesCase` proves it identifies exactly the strings that differ only in letter case |
| Timestamps.ConvertTimestamp | oncall_schedule_assistant/pagerduty.py:58-61 | `_convert_timestamp`; `ConvertRemovesColon` proves it deletes exactly the colon of the first `+DD:` and fails exactly when no `+DD:` occurs, and `ConvertThenRebuild` and `RebuildThenConvert` prove it inverse to the rebuild |
| Timestamps.RebuildTimestamp | oncall_schedule_assistant/pagerduty.py:77-78 | the rebuild of the minimum; `ConvertThenRebuild` and `RebuildThenConvert` prove it inverse to the conversion |
| PagerDuty.NextShift | oncall_schedule_assistant/pagerduty.py:75-84 | `_return_next_shift`; `NextShiftFindsOverride`, `EarliestBelowMembers` and `ExtraTimestampsIgnored` prove that, for a service-format start (first `+DD` followed by a colon) whose conversion is the minimum, it returns the first override with that start, and `ReturnNextShift` is proved equal to it |
| PagerDuty.NextOnCallOutcome | oncall_schedule_assistant/pagerduty.py:144-151 | `next_on_call`; `NextOnCallEarliest` proves it raises exactly when nothing is upcoming and otherwise returns the first earliest upcoming override, and `NextOnCall` is proved equal to it |
| PagerDuty.WhenIsOnCallOutcome | oncall_schedule_assistant/pagerduty.py:162-173 | `when_is_on_call`; `WhenIsOnCallWithoutOverrides`, `WhenIsOnCallNoneUpcoming`, `WhenIsOnCallEarliest`, `WhenIsOnCallAnswersForName` (these two when the engineer's starts are service-format) and `WhenIsOnCallSharedStart` state its cases, and `WhenIsOnCall` is proved equal to it |
| Assistant.MentionAt | oncall_schedule_assistant/oncall_schedule_assistant.py:96 | the match of `^<@(|[WU].+?)>`: none exactly when the text neither opens with `<@>` nor with `<@W` or `<@U` followed, without a line break, by at least one more character and a `>`; otherwise the text opens with `<@id>`, the id is empty or starts with `W` or `U`, a non-empty id has at least two characters and ends at the first such `>`, and the message begins just after it |
| Assistant.ParseDirectMention | oncall_schedule_assistant/oncall_schedule_assistant.py:30-31 | `parse_direct_mention`; `MentionShape` proves it gives `(None, None)` exactly when the mention pattern fails, `ShortMentionRejected` and `BrokenMentionRejected` show two such texts, and `MentionSplits` and `EmptyMentionSplits` prove that composing a mention and a message parses back |
| Assistant.Classify | oncall_schedule_assistant/oncall_schedule_assistant.py:43-74 | the decision chain of `handle_command`; `DefaultUnlessKeyword`, `WhenCommands`, `WhoCommands`, `WhatCommands` and `OtherCommands` state each branch, and `AtMostOneKeyword` that the branches exclude each other |

## Left out

- HTTP is not modelled: `_pagerduty_session_get`, its headers, and its 404 and 401 exceptions. The decoded JSON replies are inputs.
- `_pd_schedule_pull` is not modelled: the wall clock, the 1-minute and 144000-minute windows, and their `.%fZ` formatting. `now` is an input string.
- Time zones are not modelled: `pytz` and the `strptime`/`strftime` round trip inside `_convert_timestamp`. The conversion is the string surgery its pattern describes. A malformed date that `strptime` would reject still converts here. A date with unpadded fields keeps them: Python turns `2018-6-27T18:00:00+01:00` into `2018-06-27T18:00:00+0100`, the model into `2018-6-27T18:00:00+0100`.
- Timestamps.FindOffset: `\d` is read as the ASCII digits `0`–`9`, not every Unicode decimal digit as Python's `re` does.
- Text.Lower: only ASCII letters are lower-cased, not all of Python's Unicode case mappings.
- Timestamps.ConvertRemovesColon: the "one character shorter" result is stated for one-line strings only. The model does cover the multi-line case: the `(.*)` group stops at the first line break, so the tail after it is dropped.
- `set_schedule` raising when no schedule is found is modelled as `ScheduleNotFound`. As written, line 118 refers to an undefined `schedule`, so Python raises `NameError` there instead. Either way the call raises.
- Other missing dict keys are not modelled: a reply without `overrides`, `users` or `schedules`, an override without `user`, or an event without `type` or, once it qualifies, without `text`, `channel` or `user` (the `KeyError`s of `parse_bot_commands`). Only the missing `name` of an empty user record is modelled.
- `handle_command` is modelled as a choice of action (`Assistant.Classify`). Three things are left out:
  - running the chosen lookups;
  - the exceptions those lookups let escape `handle_command`: the `IndexError` of `lookup_user_name`, the `KeyError`s of missing reply keys, the `ValueError` of `min` over no upcoming start, and the `AttributeError` of a failed timestamp pattern (the model keeps them only as the lookups' own `Outcome.Raises`);
  - formatting lookup answers into reply text.
- The "what time is it" reply is not modelled, because it reads the wall clock.
- The Slack client, the real-time read loop, `time.sleep`, the YAML configuration, logging, `chat.postMessage` and the `__main__` block are I/O and are not modelled. The bot's own id is a parameter of `Assistant.ParseBotCommands`.
