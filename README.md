# qqcensorbot: a verified model of the moderation core

qqcensorbot is a QQ group moderation bot. It watches group text messages,
has each one classified by Baidu's text-censor service, reports offending
messages to an operator's QQ number and may retract them. The operator
changes the bot's settings with short commands sent to the bot in a private
chat. This project models the bot's core in Dafny and proves its behaviour:

- the command table `COMMAND`, the default `settings` built from it, and
  the `HELP` text (`commands.dfy`);
- the settings commands the operator sends in private chat: `split(/\s+/)`,
  the keyword lookup, the setters and renderers (`commands.dfy`, and
  `Handlers.Execute`);
- loading settings.json over the defaults, and `saveSettings`
  (`settings.dfy`). Here `settings` is a class whose fields the handlers
  update in place;
- the `textCensor` projection of the service's answer, and the retraction
  rule (`censor.dfy`);
- the two message handlers `OnGroupMsgs` and `OnFriendMsgs`
  (`handlers.dfy`).

Each handler is a method that takes the live `Settings` object. It is proved equal
to a pure function of the old settings (`GroupMessage`, `FriendMessage`).
The function returns three things: the list of outgoing calls, the new
settings, and how many times they were saved. Every awaited call is both an
input and an output:

- input: how the call ended (the service's answer, or `None` when the SDK
  threw; the web API's `Ret`, or `Threw`);
- output: the call itself, in the `calls` list.

The JavaScript behaviour the bot relies on is modelled exactly where it
decides an outcome:

- `~~x` is ToNumber followed by ToInt32, including hexadecimal, octal and
  binary literals, fractions, exponents, `Infinity`, NaN and wrap-around
  modulo 2^32 (`js_numbers.dfy`);
- `String.length` counts UTF-16 code units;
- `\s` is the full JavaScript whitespace set;
- a `Set` is a sequence without duplicates, in insertion order, with that
  order's `add` and `delete` (`ordered_sets.dfy`).

Two behaviours of the code are easy to miss; the model follows the code:

- A report (`SendMsg`) that throws aborts the group handler, so no
  retraction is attempted (index.js:95-97).
- The whitelist command toggles any 32-bit number, including the report and
  login QQ numbers when they are below 2^31. These come back only at the next
  load (index.js:41, 66). A number of 2^31 or more that the whitelist holds
  cannot be removed by the command (see "## Findings").
  `Commands.Apply` and `SettingsStore.LoadAfterSaveReaddsIds` state this.

## Model

| member | source | states |
|---|---|---|
| Commands.Defaults | index.js:40-47 | the initial settings hold every entry's default `d`: empty whitelist, revoke on, censorAll off, moreSensitive off, minLength 8 |
| Commands.Apply | index.js:41-45 | a setter changes only its own entry. A switch is on exactly when the argument is `开`. minLength becomes `~~arg`, a 32-bit integer. The whitelist flips the membership of `~~arg` and of no other number. The set stays free of duplicates |
| Commands.FindIndex | index.js:116 | `findIndex` returns -1 exactly when the keyword is absent; otherwise it returns the first position holding it |
| Commands.KeywordTable | index.js:41-45 | the keywords `n.split(' ')[0]` are 白名单, 执行撤回, 审查所有, 处理疑似 and 文本长度 |
| Commands.KeywordsDistinct | index.js:116 | distinct table entries have distinct, non-empty keywords, so the lookup is unambiguous |
| Commands.Lookup | index.js:115-116 | the lookup finds entry k exactly when k's keyword equals `cmd[0]` |
| Commands.KeywordsAreWords | index.js:114-116 | every keyword is a non-empty word without whitespace, so `split(/\s+/)` keeps it whole |
| Commands.ParseCommand | index.js:114-119 | it is a help request exactly when `cmd[0]` matches no keyword. It is a query when `cmd[1]` is missing or empty. It is a change, with argument `cmd[1]`, when `cmd[1]` is non-empty |
| Commands.RunCommand | index.js:114-126 | a command saves at most once; without a save the settings are unchanged; the whitelist stays free of duplicates |
| Commands.HelpListsEveryEntry | index.js:48 | `HELP` is `命令列表：` followed by the five display names, one per line, in table order |
| Commands.UnknownKeywordShowsHelp | index.js:117-118 | an unknown first word gets `HELP` and changes nothing |
| Commands.LeadingWhitespaceShowsHelp | index.js:114-118 | text that starts with whitespace has an empty `cmd[0]` and always gets `HELP` |
| Commands.QueryIsIdempotent | index.js:123-125 | a query replies `<keyword> - 当前设定值为<value>`, changes and saves nothing, and gives the same reply when repeated |
| Commands.ChangeAppliesSetter | index.js:119-122 | a change applies the entry's setter, saves once and replies `<keyword> - 设定修改成功` |
| Commands.KeywordAloneQueries | index.js:114-125 | a keyword typed alone, with `cmd[1]` undefined, is a query: it replies `<keyword> - 当前设定值为<value>` and changes and saves nothing |
| Commands.KeywordWithTrailingWhitespaceQueries | index.js:114-125 | a keyword followed only by whitespace is a query for that entry |
| Commands.KeywordWithArgumentChanges | index.js:114-122 | a keyword, then whitespace, then a word sets that entry from the word and saves once, whatever follows the next whitespace |
| Commands.WhitelistToggleTwice | index.js:41 | the same whitelist command twice restores membership. The set comes back exactly if the number was absent; if it was present, it returns at the end |
| Commands.ReapplyShownValue | index.js:42-45 | typing back the value a query shows leaves a switch or a 32-bit length unchanged |
| Commands.ReapplyShownWideLength | index.js:45 | a length outside the 32-bit range, loaded from settings.json, is shown in full but typed back as its 32-bit wrap, so the settings change |
| Commands.ReapplyShownIdRemovesIt | index.js:41 | typing back a 32-bit number the whitelist query shows deletes that number |
| Commands.ReapplyShownWideIdKeepsIt | index.js:41 | typing back a number of 2^31 or more that the whitelist holds leaves it there, and flips the membership of its 32-bit wrap instead |
| Commands.Render | index.js:41-45 | the getter `g` shows a switch as `开` exactly when it is on, and `关` otherwise. A number reads back through `~~` as its 32-bit value. An empty whitelist shows as the empty text, and a one-number whitelist reads back as that number's 32-bit value |
| Commands.WhitelistReadsBack | index.js:41 | for a whitelist of any non-zero size, the getter's text split at its commas gives `String(x)` for each number x, in set order, and each piece reads back through `~~` as that number's 32-bit value |
| Commands.LoadedWhitelistShowsBoth | index.js:41 | the whitelist every load leaves with only the report and login QQ numbers shows as those two numbers with a comma between them |
| Commands.HelpText | index.js:48 | `HELP` begins with the header `命令列表：` and a newline |
| Commands.NonNumericLengthIsZero | index.js:45 | `文本长度 开` sets the length to 0 |
| Commands.SwitchOffExample | index.js:42 | `执行撤回 关` switches retraction off, saves once and confirms |
| OrderedSets.Add | index.js:66 | `set.add` adds the element at the end if it is absent, and is a no-op if it is present |
| OrderedSets.Delete | index.js:41 | `set.delete` removes exactly that element and keeps the set free of duplicates |
| OrderedSets.DeleteKeepsOrder | index.js:41 | `set.delete` of a member removes it from its position and keeps the other elements in their order |
| OrderedSets.Toggle | index.js:41 | `has ? delete : add` flips the membership of that element and of no other |
| OrderedSets.FromArray | index.js:65 | `new Set(array)` holds exactly the array's elements, without duplicates |
| OrderedSets.FromArrayKeepsDistinct | index.js:65-69 | `new Set` of an array without repeats keeps that array, in its order |
| OrderedSets.DeleteUndoesAdd | index.js:41 | deleting an element just added to a set that lacked it restores the set |
| JsStrings.Utf16Length | index.js:87 | `Content.length` is at least the number of characters and at most twice that. It equals the number of characters when every character is in the Basic Multilingual Plane, as all Chinese text is |
| JsStrings.Utf16LengthAppend | index.js:87 | the length of a concatenation is the sum of the lengths |
| JsStrings.AstralCountsTwice | index.js:87 | a character outside the Basic Multilingual Plane, such as an emoji, adds 2 to `length` |
| JsStrings.SplitWhitespace | index.js:114 | `split(/\s+/)` returns at least one piece; the first piece is the text before the first whitespace; no piece contains whitespace; there is exactly one piece, the text itself, exactly when the text holds no whitespace |
| JsStrings.BeforeFirstSpace | index.js:116 | `split(' ')[0]` is a prefix without a space, followed by a space or the end of the text |
| JsStrings.LeadingWhitespaceGivesEmptyHead | index.js:114 | text that starts with whitespace splits with an empty first piece |
| JsStrings.TrailingWhitespaceGivesEmptyTail | index.js:114 | a word followed by whitespace splits into the word and one empty piece |
| JsStrings.TwoWords | index.js:114 | word, whitespace, word splits into exactly those two words |
| JsStrings.SecondWord | index.js:114-120 | after a first word and a whitespace run, `cmd[1]` is the next word, whatever follows it |
| JsStrings.Join | index.js:48 | joining no parts gives the empty text, and joining one part gives that part |
| JsStrings.SplitOn | index.js:41 | `s.split(c)` returns at least one piece, and the whole text when it holds no `c` |
| JsStrings.SplitOnLast | index.js:41 | a separator followed by a piece without it splits off exactly that last piece |
| JsStrings.SplitOnJoin | index.js:41 | splitting `parts.join(c)` at `c` gives the parts back, for any number of parts none of which contains `c` |
| Commands.JoinFive | index.js:48 | five parts join into the parts with the separator between each pair |
| JsNumbers.Wrap32 | index.js:88 | `~~n` on an integer is a 32-bit integer, congruent to n modulo 2^32, and n itself when n is in range |
| JsNumbers.Truncate | index.js:41-45 | ToInt32's first step keeps the sign and drops any fraction toward zero: its magnitude m satisfies m * 10^k <= mantissa < (m + 1) * 10^k for a number mantissa * 10^-k |
| JsNumbers.NumberToInt32 | index.js:41-45 | ToInt32 returns a 32-bit integer congruent to the truncated number modulo 2^32, and 0 for NaN and the infinities |
| JsNumbers.StringToNumber | index.js:41-45 | ToNumber reads blank text as 0 and a string of decimal digits, leading zeros included, as the value of those digits |
| JsNumbers.StringToInt32 | index.js:41-45 | `~~v` on a string is always a 32-bit integer; on decimal digits it is their value modulo 2^32 |
| JsNumbers.SignedDigits | index.js:41-45 | `~~"+d"` is `~~d` and `~~"-d"` is the 32-bit wrap of minus the digits' value |
| JsNumbers.HexDigits | index.js:41-45 | `~~"0x h"` reads the hexadecimal digits h in base 16, modulo 2^32 |
| JsNumbers.FractionIsTruncated | index.js:41-45 | `~~"i.f"` is the value of i and `~~"-i.f"` its negation, each modulo 2^32: the fraction is dropped toward zero |
| JsNumbers.FractionReads | index.js:41-45 | `i.f` and `-i.f` read as the digits of i and f scaled by 10^-|f|, with the sign |
| JsNumbers.DigitsAppend | index.js:41-45 | the value of digits a followed by digits b is value(a) * 10^|b| + value(b) |
| JsNumbers.DigitsBelowPower | index.js:41-45 | n decimal digits have a value below 10^n |
| JsNumbers.ReadsNegativeFraction | index.js:45 | `~~"-3.7"` is -3 |
| JsNumbers.ReadsHexadecimal | index.js:45 | `~~"0x10"` is 16 |
| JsNumbers.ReadsPlusSign | index.js:45 | `~~"+12"` is 12 |
| JsNumbers.ReadsLeadingZeros | index.js:45 | `~~"007"` is 7 |
| JsNumbers.TrailingTextIsZero | index.js:45 | `~~"12abc"` is 0: text after the digits makes the literal NaN |
| JsNumbers.ExponentScales | index.js:45 | `~~"1e3"` is 1000 |
| JsNumbers.NatToStringValue | index.js:124 | the decimal digits printed for n have value n |
| JsNumbers.IntToStringParses | index.js:124 | reading back a printed integer gives exactly that integer |
| JsNumbers.RenderedIntRoundTrip | index.js:41-45 | `~~String(n)` equals `~~n`, and it equals n for 32-bit n |
| JsNumbers.NonNumericIsZero | index.js:45 | an argument whose first non-blank character cannot start a numeric literal reads as 0 |
| JsNumbers.ReadsDecimal | index.js:45 | `~~"12"` is 12 |
| JsNumbers.EmptyIsZero | index.js:45 | `~~""` is 0 |
| JsNumbers.OnTokenIsZero | index.js:45 | `~~"开"` is 0 |
| Censor.TextCensorResult | index.js:149-151 | the conclusion is passed through unchanged. The reason is attached exactly when the conclusion is not 合规 and `data[0].msg` exists and is non-empty; it is that `msg` |
| Censor.ReasonText | index.js:91-92 | `${result.msg}` is the reason when there is one, and "undefined" otherwise. Only a real reason can name 恶意推广 |
| Censor.ShouldRetract | index.js:91 | retraction requires all three: revoke on; 不合规, or 疑似 with moreSensitive on; censorAll on or the reason matching `/恶意推广/`. Those conditions suffice |
| Censor.ContainsInMiddle | index.js:91 | `/p/.test(s)` holds whenever s contains p |
| Censor.PromotionIsRetracted | index.js:91 | a 不合规 verdict whose reason names 恶意推广 is retracted with censorAll off |
| Censor.OtherCategoryIsReported | index.js:91 | with censorAll off, a reason that does not name 恶意推广 is never retracted |
| Censor.MissingReasonIsNotPromotion | index.js:91 | a missing reason, read as "undefined", never matches `/恶意推广/` |
| SettingsStore.Overlay | index.js:64 | `Object.assign` takes each key present in the file and keeps each absent one. Overlaying what was saved from p gives p back |
| SettingsStore.LoadOnto | index.js:63-66 | every setting other than the whitelist takes the file's value when present and otherwise keeps its own; an unreadable file leaves them all. The whitelist has no duplicates and holds exactly the loaded numbers plus the report and login QQ numbers |
| SettingsStore.LoadAfterSave | index.js:63-71 | loading what `saveSettings` wrote restores the saved settings exactly |
| SettingsStore.LoadAfterSaveReaddsIds | index.js:63-71 | reloading a save re-adds the report and login numbers if they had been toggled out, and changes nothing else |
| SettingsStore.Settings.constructor | index.js:47 | the live settings start at the defaults |
| SettingsStore.Settings.Load | index.js:63-66 | the startup load leaves the live settings equal to `LoadOnto` of the old ones, with a duplicate-free whitelist |
| SettingsStore.Settings.Save | index.js:67-71 | `saveSettings` writes every setting, with the set as an array |
| SettingsStore.Settings.Set | index.js:41-45 | the live setter changes the settings exactly as `Apply` does and keeps the set free of duplicates |
| SettingsStore.Settings.AddToWhitelist | index.js:103 | `whitelist.add(id)` on the live settings changes nothing else |
| Handlers.Screened | index.js:86-88 | a whitelisted 32-bit sender is never screened. With minLength 0 or less, every text from a non-whitelisted sender is screened. For text in the Basic Multilingual Plane, a message is screened exactly when it is text, has at least minLength characters and `~~FromUserId` is not whitelisted |
| Handlers.Notice | index.js:92-93 | the report to the operator ends with `处理方式：` and then 撤回 or 无, matching the retraction decision |
| Handlers.GroupMessage | index.js:86-106 | see the list below this table |
| Handlers.OnGroupMsgs | index.js:86-106 | the group handler's calls, new settings and saves are those of `GroupMessage`, and the whitelist stays a set |
| Handlers.FriendMessage | index.js:113-128 | a private message is ignored unless it is text from the report QQ number. Otherwise the bot sends the command's reply back to the sender and applies the command's effect |
| Handlers.OnFriendMsgs | index.js:113-128 | the private handler's calls, new settings and saves are those of `FriendMessage` |
| Handlers.Execute | index.js:114-126 | the live command step replies, changes and saves as `RunCommand` says |
| Handlers.SuspectedIsOnlyReported | index.js:90-97 | a 疑似 verdict with moreSensitive off is reported, never retracted, and changes nothing |
| Handlers.PromotionIsReportedAndRetracted | index.js:90-99 | a 不合规 verdict naming 恶意推广 is reported as retracted, and a retraction follows |
| Handlers.OtherCategoryIsOnlyReported | index.js:90-97 | with censorAll off, a 不合规 verdict of another category is reported only |
| Handlers.LearnedSenderIsExempt | index.js:101-104 | a Ret 1001 answer whitelists the sender. A sender in the 32-bit range is then exempt from screening |
| Handlers.LearnedWideSenderIsStillScreened | index.js:88-103 | as written, a sender outside the 32-bit range is whitelisted after Ret 1001 and is still screened |
| Handlers.WideSenderExample | index.js:88-103 | as written, QQ number 3000000000 is learned after Ret 1001 and its next message is still screened |
| Handlers.LearnSender | index.js:103 | the corrected step: whitelisting `~~FromUserId` exempts every later message from that sender and changes nothing else |
| Handlers.LearnSenderAgreesInRange | index.js:101-104 | for senders in the 32-bit range the code's step equals the corrected one |
| Handlers.StrangersAreIgnored | index.js:113 | a private message from anyone but the report QQ number, or one that is not text, causes no call and no change |

`Handlers.GroupMessage` states the following about a group message:

- Nothing is called unless the message is screened. A message is screened
  when it is text, its `Content.length` is not below `minLength`, and
  `~~FromUserId` is not whitelisted.
- The first call is the classification.
- A report goes to the report QQ number exactly when the verdict is not 合规.
- The report's text is `Notice` of the verdict, with the disposition
  `ShouldRetract` chose (撤回 or 无). It says 撤回 even when the report then
  throws and no retraction follows.
- A retraction follows exactly when both hold:
  - the report did not throw;
  - `ShouldRetract` holds.
- Only a retraction answered with `Ret` 1001 changes the settings. It adds the
  raw `FromUserId` and saves once.

## Left out

- Transport: the socket.io connection and its `connect` and `disconnect`
  logging are input/output and are not modelled.
- `callApi`: the HTTP request to the web API is a foreign call. Its outcome is
  a parameter (`ApiReply`).
- The web API's answer to the operator's reply (index.js:128) is only logged,
  so it is not modelled.
- `textCensorUserDefined`: the Baidu SDK call is a foreign call. Its answer is
  a parameter, `None` when it threw.
- Configuration: reading config.json and the command-line path is input. The
  report and login QQ numbers are a `Config` parameter.
- Files: reading, JSON parsing and writing settings.json are input/output. A
  missing or malformed file is `None`. A save is recorded in ghost fields.
  Keys settings.json holds beyond the five settings are not modelled. Neither
  are values of another JSON type, such as a string where a number is
  expected, nor JSON numbers with a fraction, such as a `minLength` or a
  whitelist entry of 8.5: the stored settings hold integers only.
- SettingsStore.Settings.Save, Handlers.Execute: the model takes every `saveSettings`
  write to succeed. When `fs.writeFileSync` throws (index.js:70), the code
  has already run the setter, so the change stays in memory. The reply at
  index.js:127-128 is then never sent, and the handler's promise rejects.
  The model always sends the reply and records the save.
- Logging: the bunyan log lines, and `OnEvents`, which only logs, are left
  out.
- Concurrency: handlers that interleave at their `await` points are not
  modelled. Each handler runs as one step over the settings it starts from.
- JsNumbers.StringToNumber: gives the exact decimal value of the literal,
  not the nearest IEEE double. `~~` can differ only for literals with more
  than 15 significant digits, or whose magnitude is 2^53 or more.
- JsNumbers.IntToString: prints plain decimal digits. JavaScript switches to
  exponent form at 10^21, far outside any QQ number or length.
- JsStrings.Contains: models `/恶意推广/.test`. Any regular expression
  without special characters behaves the same, so only that case is
  modelled.

## Findings

| source | as written | input that shows it | evidently intended | confidence | as-written member | corrected member |
|---|---|---|---|---|---|---|
| index.js:103 | After a Ret 1001 answer the raw `FromUserId` is added to the whitelist. The screen at index.js:88 looks up `~~FromUserId` instead | QQ number 3000000000: it is learned as 3000000000, looked up as -1294967296, and classified again | whitelist `~~FromUserId`, the number the screen looks up | not executed | Handlers.WideSenderExample | Handlers.LearnSender |

The same mismatch has a second effect on the whitelist command.
Commands.ReapplyShownWideIdKeepsIt shows it. A number of 2^31 or more that
the whitelist holds can be added raw in three ways: loaded from settings.json
at index.js:64-65, learned at index.js:103, or configured as the report or
login QQ number at index.js:66. The operator
cannot remove such a number by typing it back (index.js:41). The command
toggles its 32-bit wrap instead.

Handlers.GroupMessage keeps the code as written. Handlers.LearnSender is
the corrected step, with its exemption property proved. For every sender in
the 32-bit range, Handlers.LearnSenderAgreesInRange shows that it agrees
with the code.
