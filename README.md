# Running-total ledger of the Zelle tracker bot

`main.py` is a Telegram bot that keeps one running dollar total per chat. The panel's
buttons add 10, 50, 100, 200 or 500 dollars, or ask for a custom amount typed as the
user's next message. "Release" logs the total together with a fee/net split and resets
it to zero. "History" lists the chat's ten newest releases. Every handler first checks
the user against an allow-list read from `ALLOWED_USER_IDS`.

This project models the exact-arithmetic core under that transport glue:

- `wrappers.dfy` (module `Wrappers`): `Option` and `Result`. They stand for the places
  where the Python returns `None` or raises.
- `text.dfy` (module `Text`): the string operations the handlers use.
  - `str.strip()`, over the characters `str.isspace()` accepts.
  - `str.split` with a one-character separator, and its inverse `Join`.
  - `str.replace`.
  - Decimal digit strings.
- `money.dfy` (module `Money`): amounts as integer cents.
  - `Decimal(text)` for a sign, digits and an optional `.`-fraction.
  - `ROUND_HALF_UP`: nearest, ties away from zero. It is specified independently by
    `IsHalfUpRounding` and computed by `RoundHalfUp`.
  - `money_to_cents`, `cents_to_money_str` and `compute_fee_net`.
  - `FEE_PCT` as an exact rational `Rate(num, den)`; its default is 2/100.
- `access.dfy` (module `Access`):
  - `parse_allowed_ids`, as a method with the source's loop;
  - `is_allowed`;
  - the default allow-list.
- `history.dfy` (module `History`):
  - the releases table;
  - the history query: this chat only, newest first, at most 10 rows;
  - the rewrite of the stored `released_at` stamp;
  - the loop that builds one listing line per row.
- `ledger.dfy` (module `Ledger`):
  - The handlers as pure step functions on a `LedgerState` value. That value holds the
    `state` table (a `map`), the `releases` table (a `seq`) and `AWAITING_CUSTOM_AMOUNT`
    (a `set`).
  - The class `Ledger`, whose fields are those three and whose methods `GetState`,
    `SetTotal`, `OnButton` and `OnMessage` update them in place. `GetState` and `SetTotal`
    are the two table helpers; `SetTotal` stores whatever total it is given, negative or
    not. `OnButton` and `OnMessage` are proved to produce exactly the step function's new
    state and screen, and to keep the invariant `Valid`: totals are never negative, and
    every logged release is positive and split by the fee rate.

One ordering detail of the code is kept:
- `on_button` calls `get_state` before it looks at the callback data. So every allowed
  press gives the chat a row at 0, even an add whose amount `money_to_cents` rejects.
- `on_message` parses the amount first, and touches the table only when the amount is
  accepted.

## Model

| member | source | states |
|---|---|---|
| Text.StripSpec | main.py:33 | strip() keeps the slice from the first to the last non-whitespace character; everything it drops is whitespace |
| Text.StripIdempotent | main.py:373 | stripping an already stripped text changes nothing |
| Text.StripPadded | main.py:33 | whitespace around a text that is not itself padded is exactly what strip() removes |
| Text.NatToDigits | main.py:95 | the digits written for a number are non-empty, all decimal digits, with no leading zero |
| Text.DigitsRoundTrip | main.py:36 | reading back the digits written for n gives n |
| Text.DigitsValueAppend | main.py:86 | reading digits a then b is a shifted left by len(b) places plus b |
| Text.IndexOf | main.py:230 | the result is absent exactly when the character is absent, and otherwise is its first position |
| Text.Split | main.py:32 | split(',') gives at least one part, no part contains ',', and a text without ',' is its own single part |
| Text.SplitJoin | main.py:32 | joining the parts of a split with the separator gives the text back |
| Text.JoinSplit | main.py:32 | splitting parts joined with a separator that none of them contains gives the parts back |
| Text.ReplaceAllSkips | main.py:333 | replace() copies unchanged a prefix that cannot start an occurrence |
| Text.ReplaceAllExcludes | main.py:333 | replace() introduces no character that is in neither the text nor the replacement |
| Text.ReplaceAllRemoves | main.py:333 | replacing a one-character pattern by text without it removes that character |
| Money.RoundHalfUpCorrect | main.py:87 | the computed rounding is the nearest integer, with ties going away from zero |
| Money.HalfUpUnique | main.py:87 | at most one integer is the half-up rounding of a fraction |
| Money.HalfUpWhole | main.py:87 | a whole value rounds to itself |
| Money.HalfUpNegative | main.py:88 | the rounding is negative exactly when the value is at most minus one half |
| Money.HalfUpThousandths | main.py:87 | 0.5 rounds to 1, -0.4 rounds to 0, and -0.5 rounds to -1 |
| Money.ParseWhole | main.py:86 | Decimal() reads a digit string as that whole number |
| Money.ParseFraction | main.py:86 | Decimal() reads digits '.' digits as all the digits over ten to the number of fraction digits |
| Money.MoneyToCents | main.py:82-90 | an accepted amount is never negative |
| Money.MoneyToCentsMeaning | main.py:82-90 | text Decimal() refuses is invalid; a number is rejected exactly when it is at most minus half a cent; otherwise the result is the number times 100 rounded half-up |
| Money.WholeUnitsToCents | main.py:82-90 | n written in digits is 100 n cents; in particular "0" is accepted as 0 |
| Money.PromptWholeExample | main.py:84 | "420" is 42000 cents |
| Money.TenthsExample | main.py:84 | "420.5" is 42050 cents |
| Money.PromptFractionExample | main.py:252 | the prompt's "420.50", even with blanks and a newline around it, is 42050 cents |
| Money.HalfCentExample | main.py:86-90 | "0.005" is rounded up to 1 cent |
| Money.NegativeZeroExample | main.py:86-90 | "-0.004" rounds to zero cents and is accepted as 0 |
| Money.NegativeHalfCentExample | main.py:86-89 | "-0.005" rounds to -1 cent and is rejected as negative |
| Money.CentsToMoneyStr | main.py:93-95 | the text has a '.' followed by exactly two digits and no other '.', and starts with '-' exactly for a negative amount |
| Money.TwoDigits | main.py:95 | the two-digit cents field denotes exactly the cents below a dollar |
| Money.MoneyStrParses | main.py:93-95 | the money text reads back as the sign, all the cents as coefficient, and scale 2 |
| Money.MoneyRoundTrip | main.py:82-95 | money_to_cents(cents_to_money_str(c)) is c for every c >= 0, and a negative-amount rejection for every c < 0 |
| Money.ParseFeeRate | main.py:23 | FEE_PCT parses exactly when Decimal() accepts its text, and the rate equals the decimal's value |
| Money.DefaultFeeRateText | main.py:23 | the default text "0.02" is the rate 2/100 |
| Money.ComputeFeeNet | main.py:98-104 | fee + net is the total |
| Money.FeeIsRounded | main.py:99-100 | the fee is total times rate rounded half-up to the cent |
| Money.FeeWithinTotal | main.py:98-104 | with 0 <= rate <= 1 and a total >= 0, fee and net both lie between 0 and the total |
| Money.FeeExample | main.py:98-104 | at 2%, 1000.00 splits into 20.00 and 980.00, 0.25 into 0.01 and 0.24, and 0.24 into 0.00 and 0.24 |
| Access.IntToString | main.py:36 | str(n) is non-empty, has no blank at either end and no ',' |
| Access.IntRoundTrip | main.py:36 | int(str(n)) is n |
| Access.EntryOfInt | main.py:33-36 | a list part written as str(n) gives back n |
| Access.IdsOfListed | main.py:30-39 | an id is collected exactly when some comma-separated part, stripped, reads as it |
| Access.ParseAllowedIds | main.py:30-39 | the loop collects exactly the ids of the parts that, once stripped, are non-empty and parse as integers |
| Access.BlankPartDropped | main.py:33-34 | a blank part gives no id |
| Access.ExampleEntries | main.py:32-38 | " 7" gives 7 and " -3" gives -3; " " and "x" give nothing |
| Access.JoinedIdsListed | main.py:30-39 | a list written as comma-joined str(x) lists exactly those ids |
| Access.DefaultAllowList | main.py:24 | the default list admits exactly the user 6448246938 |
| History.ChatReleasesMembers | main.py:307-316 | a release is among a chat's releases exactly when it is in the table and belongs to that chat |
| History.NewestFirstIsReversedFilter | main.py:307-316 | the newest-first scan equals the chat's releases reversed and cut at the limit |
| History.HistoryNewestFirst | main.py:305-316 | the listing has min(10, n) rows of the requesting chat, and row i is its i-th newest release |
| History.HistoryAfterRelease | main.py:278-316 | a release just logged heads its chat's history and leaves other chats' histories unchanged |
| History.TimestampHasNoPoint | main.py:333 | the displayed stamp never contains '.' |
| History.RewriteWithMicros | main.py:333 | a stamp with microseconds is shown as "date time", with no 'T' |
| History.RewriteWithoutMicros | main.py:333 | a stamp without microseconds is shown as "date time UTC" |
| History.RenderHistory | main.py:318-340 | no rows give the "no releases" view; otherwise there is one line per row, in query order (the view `HistoryViewOf` specifies) |
| History.RenderLines | main.py:332-339 | the loop makes line i from row i |
| History.LineReadsBack | main.py:332-339 | each line's money texts read back as the row's amounts, and its stamp has no '.' |
| Ledger.DecodeButton | main.py:227-230 | data is an add exactly when it starts with "add:", and the amount is what follows it |
| Ledger.ButtonRoundTrip | main.py:149-171 | every button the keyboards carry is decoded as itself |
| Ledger.ButtonDataRoundTrip | main.py:227-350 | decoding callback data loses nothing |
| Ledger.PanelButtonsAdd | main.py:152-159 | each panel add button decodes as an add, and its amount is that many dollars in cents |
| Ledger.WithRowKeepsTotals | main.py:107-116 | get_state creates the chat's row and changes no total anyone can read |
| Ledger.SetAfterRow | main.py:107-124 | set_total right after get_state leaves the same table as setting the total directly |
| Ledger.CreditOnlyThatChat | main.py:229-233 | crediting raises that chat's total by exactly the cents and leaves every other total alone |
| Ledger.CreditsAccumulate | main.py:229-233 | two adds to a chat equal one add of their sum |
| Ledger.ReleaseOf | main.py:264-285 | a record exists exactly for a positive total; it carries the chat, total, releaser and time, and fee + net is the total |
| Ledger.ReleaseFeeIsRounded | main.py:274 | the logged fee is total times rate rounded half-up |
| Ledger.ButtonKeepsValid | main.py:216-360 | every button press keeps totals non-negative and releases positive and correctly split |
| Ledger.RowKeepsValid | main.py:107-116 | the row get_state adds holds 0, so the invariant is kept |
| Ledger.AddKeepsValid | main.py:229-233 | an add keeps totals non-negative, because an accepted amount is never negative |
| Ledger.ReleaseKeepsValid | main.py:262-287 | a release keeps the invariant: only a positive total is logged, split by the rate |
| Ledger.MessageKeepsValid | main.py:363-394 | a message keeps the invariant |
| Ledger.RefusedUserChangesNothing | main.py:45-47 | a user off the allow-list changes nothing and is shown nothing |
| Ledger.AddPressed | main.py:223-231 | an allowed add press runs the add branch on the table after get_state |
| Ledger.AddButtonCredits | main.py:229-233 | an accepted add raises that chat's total by exactly the cents, a new chat starting at 0, and changes no other total, no release and no waiting user |
| Ledger.MessageAccepted | main.py:370-394 | an accepted message from a waiting user runs the credit branch |
| Ledger.AcceptedAmountCredits | main.py:373-394 | an accepted custom amount credits the chat like an add, changes no other total or release, and ends the wait |
| Ledger.CustomAmountFlow | main.py:370-389 | custom puts the user in the waiting set; a non-waiting user's text is ignored; rejected text changes nothing and keeps the user waiting; accepted text ends the wait |
| Ledger.ReleaseAppendsOneOrNone | main.py:262-287 | release sets the chat's total to 0 and leaves other totals alone; it appends nothing when the total was <= 0, otherwise exactly one record with the total and compute_fee_net's split |
| Ledger.BackShowsPanel | main.py:350-360 | back changes no readable total, no release and no waiting user, and shows the panel with the chat's total |
| Ledger.HistoryShowsRecent | main.py:305-347 | history changes no readable total, no release and no waiting user, and shows the chat's newest releases |
| Ledger.Ledger.constructor | main.py:23-42 | an empty ledger, valid, with the allow-list and fee rate read at start-up |
| Ledger.Ledger.GetState | main.py:107-116 | returns the chat's total (0 for a new chat) and adds a row at 0 when there is none |
| Ledger.Ledger.SetTotal | main.py:119-124 | updates an existing row only; a chat without a row keeps none |
| Ledger.Ledger.OnButton | main.py:216-360 | the new tables, waiting set and screen are exactly those of the button step, and the invariant is kept |
| Ledger.Ledger.PressAdd | main.py:229-242 | adds the parsed cents to the total read by get_state, or changes nothing when the amount is rejected |
| Ledger.Ledger.PressRelease | main.py:262-303 | logs one record for a positive total, then sets the total to 0 |
| Ledger.Ledger.OnMessage | main.py:363-394 | the new state and screen are exactly those of the message step, and the invariant is kept |
| Ledger.Ledger.AcceptAmount | main.py:388-394 | removes the user from the waiting set and credits the chat via get_state and set_total |
| Ledger.MessageStripHarmless | main.py:373-375 | the handler's strip before money_to_cents's own strip changes no result |

## Left out

- Telegram I/O is not modelled: sending, editing and deleting messages, `query.answer`,
  the keyboards' labels and the HTML of the panel, prompt, release and history texts.
  A handler returns a `Screen` value naming what it would show.
- `panel_message_id` and `set_panel_message_id` are left out: they only choose which
  message to edit.
- The `start` handler and `send_or_update_panel` are not modelled as members. For an
  allowed user they call `get_state`, so the chat gets a row at 0 exactly as `WithRow`
  adds it, and then show the panel with the chat's total; nothing else changes.
- SQLite is not modelled (`db`, `init_db`, the SQL text). The two tables are a `map` and
  a `seq`, and each `with db()` block is one atomic update.
- Async scheduling and concurrency are left out: each handler is one atomic step.
- The environment is not read. `os.getenv`, `BOT_TOKEN`, `DB_PATH` and `main()` are out.
  `FEE_PCT` and the allow-list are constructor parameters. `datetime.now(...).isoformat()`
  is the `now` input of a button press.
- An exception in a handler is not modelled as an error. A rejected add amount raises out
  of `on_button` after `get_state`; the model returns `AddRejected` with the row already
  created.
- Money.ParseDecimal: accepts only an optional sign, digits and an optional '.'-fraction.
  `Decimal()` also accepts exponents ("1e2"), underscores, "NaN", "Infinity" and
  non-ASCII digits; all of these are read as invalid here.
- Money.MoneyToCents: does not model the 28-digit precision of the `Decimal` context.
  Amounts are unbounded integers, so a product the context would round is exact here.
  Also, `quantize` raises `InvalidOperation` once the cents need more than 28 digits:
  "1" followed by 26 zeros is rejected by the source, while `MoneyToCents` accepts it as
  10^28 cents.
- Money.ComputeFeeNet: the same 28-digit context rounding of `total * FEE_PCT` is not
  modelled.
- Access.ParseAllowedIds: `int()` also accepts underscores between digits and non-ASCII
  digits. Such parts are dropped here instead of parsed.
- History.TimestampHasNoPoint: "no 'T' in the displayed stamp" is proved only for stamps
  with microseconds (`History.RewriteWithMicros`). Without microseconds the stamp ends in
  " UTC", which contains a 'T'.
