# PicsArt pay-bot: the payment-claim workflow in Dafny

The bot sells one digital item. A user pays out of band, then sends a
12-digit UTR (the bank's transaction reference). The bot stores a PENDING
order and offers the administrator two buttons, Approve and Reject. The
administrator's press sets that user's orders to APPROVED or REJECTED.

This project models that workflow without the Telegram and SQLite layers:

- `Text` (`text.dfy`): Python's `str.strip()`, `str.split(":")` and the
  decimal-digit class.
- `Utr` (`utr.dfy`): the check `UTR_REGEX.fullmatch(text.strip())` with
  `UTR_REGEX = ^\d{12}$`.
- `Payload` (`payload.dfy`): the callback payloads. They are encoded as
  `f"approve:{id}"` and `f"reject:{id}"` and decoded with `split(":")`, a
  two-name unpacking and `int(...)`.
- `Orders` (`orders.dfy`): the `orders` table as a class `OrderTable`. It
  holds the rows in insertion order and the AUTOINCREMENT counter `nextId`.
  `Save` models `save_order` and `Update` models `update_order`.
- `Bot` (`bot.dfy`): `utr_handler` as `HandleUtr` and `button_handler` as
  `HandleButton`. Both are methods over an `OrderTable`. The messages a
  handler sends become the outcome value it returns. `ADMIN_ID` is a
  parameter.

Two behaviours of the code are worth noting:

- `update_order` rewrites every row of the user, not only the latest one.
- No decision checks that the order is still PENDING. A later approve
  overwrites an earlier reject, and the other way round
  (`Orders.WithStatusLastWins`).

## Model

| member | source | states |
|---|---|---|
| Text.Strip | bot.py:76 | `strip()` is never longer than its input, and a non-empty result neither begins nor ends with whitespace (exactly Python's `str.isspace` set) |
| Text.StripParts | bot.py:76 | the input is some whitespace, then the stripped text, then some whitespace: strip only removes whitespace, and only from the ends |
| Text.StripUnique | bot.py:76 | strip is determined: whitespace + m + whitespace, where m neither begins nor ends with whitespace, strips to exactly m |
| Text.StripIdempotent | bot.py:76 | stripping an already stripped text changes nothing |
| Text.Split | bot.py:111 | `split(":")` yields at least one piece, no piece contains the separator, and joining the pieces with the separator gives back the input |
| Text.SplitJoin | bot.py:111 | split undoes join when no piece holds the separator |
| Text.SplitLength | bot.py:111 | split yields exactly one piece more than the separators in the input |
| Utr.IsValidUtrIff | bot.py:73-79 | a submission is accepted iff it is whitespace, then exactly 12 decimal digits, then whitespace (both directions) |
| Utr.StripCodeOf | bot.py:76-82 | 12 digits between whitespace are accepted, and the code that is kept is exactly those 12 digits |
| Utr.ValidUtrIgnoresPadding | bot.py:76-77 | padding a text with whitespace changes neither the stripped code nor the verdict |
| Payload.NatToDecimal | bot.py:87-88 | the decimal form of a natural number is non-empty, all digits, and has no leading zero |
| Payload.DecimalRoundTrip | bot.py:112 | reading back the digits of n gives n |
| Payload.FormatInt | bot.py:87-88 | `f"{id}"` is non-empty and never contains the `:` separator |
| Payload.ParseFormat | bot.py:111-112 | `int(f"{id}") == id` for every integer id, negative ones included |
| Payload.ParseInt | bot.py:112 | the modelled `int` accepts a text iff it is ASCII digits, optionally after a minus sign (both directions); an accepted text never holds `:`, and a negative value comes only from a leading minus |
| Payload.ParseIntSound | bot.py:112 | what `ParseInt` accepts is digits after an optional minus sign, so never a text holding `:` |
| Payload.Encode | bot.py:87-88 | for a tag without `:`, `split(":")` of the payload gives exactly the tag and `f"{id}"` |
| Payload.Decode | bot.py:111-112 | a decoded payload is its tag (free of `:`), a `:`, then text that parses as its id; a failure is a wrong piece count or a non-integer id |
| Payload.DecodeEncode | bot.py:111-112 | decoding an encoded payload gives back its tag and id, for any tag without `:` and any integer id |
| Payload.DecodeWellFormed | bot.py:111-112 | the converse of `Decode`'s contract: any payload with one `:` whose second piece `ParseInt` accepts decodes to that tag and value, leading zeros included (`"approve:007"` gives 7) |
| Payload.DecodeButtons | bot.py:87-88 | the Approve and Reject payloads decode to their own tag and the submitter's id |
| Payload.DecodeRejectsPieceCount | bot.py:111 | a payload with no `:` or with several fails at the unpacking, reporting separators + 1 pieces |
| Orders.WithStatus | bot.py:53-56 | the UPDATE sets the new status on every row of the user and keeps all other statuses, every other column and the row count |
| Orders.WithStatusNoMatch | bot.py:55 | updating a user who has no rows changes nothing |
| Orders.WithStatusLastWins | bot.py:114-127 | with no PENDING guard the last update of a user wins: approve after reject leaves APPROVED, and vice versa |
| Orders.WithStatusCommutes | bot.py:55 | updates of two different users commute |
| Orders.OrderTable.constructor | bot.py:29-38 | a new table is empty and AUTOINCREMENT starts at 1 |
| Orders.OrderTable.Save | bot.py:45-51 | appends exactly one row (next id, the given user, username and code, status PENDING), leaves the other rows untouched, gives an id above every existing id, and keeps ids strictly increasing |
| Orders.OrderTable.Update | bot.py:53-56 | the rows become `WithStatus` of the old rows; the id counter is unchanged |
| Bot.HandleUtr | bot.py:75-90 | an invalid submission leaves the table unchanged; a valid one appends one PENDING row with the user's id, `username or ""` and the stripped code, even when that code was seen before, and yields the approve/reject payloads for that user |
| Bot.HandleButton | bot.py:104-127 | a non-administrator changes nothing whatever the payload; a malformed payload fails with no change; `approve` or `reject` sets every order of the decoded user to APPROVED or REJECTED; any other tag changes nothing |

## Left out

- Telegram transport is not modelled: replies, the photo, messages to the user and the administrator, message edits, `query.answer` and the keyboard objects. The handlers return an outcome value instead.
- SQLite I/O is not modelled: connections, commits and `init_db`. The in-memory table replaces them, and a storage failure is not modelled.
- `created_at` is left out, because it reads the wall clock.
- Configuration loading (`os.getenv`) is left out. `ADMIN_ID` is a parameter of `Bot.HandleButton`.
- The `start` and `get_app` handlers are left out. They only send fixed text and the QR image.
- `main`, `run_polling` and the event-loop policy shim are left out.
- Interleaving of concurrent handlers is left out. This includes the approve/reject last-write-wins race between two connections.
- Utr.IsValidUtrIff: `\d` is narrowed to ASCII `0`..`9` (`Text.IsDigit`). Python's `\d` on a `str` also matches every other Unicode decimal digit, so such texts are accepted by the bot and refused here.
- Payload.ParseInt: accepts only an optional `-` and ASCII digits. Python's `int()` also allows surrounding whitespace, a `+` sign, underscores between digits and non-ASCII digits. The model still reads back every `f"{id}"`.
- Bot.HandleButton: user ids are unbounded. SQLite stores `user_id` in 64 bits, and the driver raises `OverflowError` for a larger Python int. So for a payload such as `approve:99999999999999999999` the bot raises at `update_order` before any update or message, while the model returns `Decided`. The table ends the same either way, but the outcome differs.
- Orders.OrderTable.Save, Orders.OrderTable.Update: the 64-bit bound on `user_id` is not modelled. Out-of-range values are stored or matched here, where the driver would raise and leave the table unchanged.
- Bot.HandleUtr: the same 64-bit bound on `user.id` at `save_order` is not modelled.
- Orders.OrderTable.Save: ids are unbounded. SQLite stops handing out ids past 2^63 - 1, and that limit is not modelled.
