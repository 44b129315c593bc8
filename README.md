# Horoscope bot: subscriptions and the daily mailing

This project models the core of a Telegram bot that mails each subscriber a
daily horoscope for their zodiac sign (`bot.py`), and proves what that core
promises.

- **Sign catalogue** (`signs.dfy`, module `Signs`). `SIGNS` is the ordered
  table of twelve sign codes (`aries` … `pisces`) and their Russian display
  names. It is modelled as the entry list `Catalogue` and the map `Table()`
  that a Python dict literal of those entries builds.
- **Messages** (`format.dfy`, module `Format`).
  - `format_msg` is `FormatMsg`. The parser `ParseMsg` is its partner: it
    reads the sign and the forecast back out of a message.
  - The `/start` help text is built by the same loop as the handler
    (`StartText`, `Listing`). It is specified by the function `HelpText`.
- **Registration** (`registration.dfy`, module `Registration`).
  - `subscribe` derives the sign by deleting every `/` from the command
    text (`DeriveSign`). It ignores unknown signs and otherwise writes the
    row with `REPLACE INTO`.
  - `Register` is the value-level view of that step. The class
    `SubscriptionStore` is the `users` table that `subscribe` updates in
    place and `send_daily` reads.
  - `chat_id INTEGER PRIMARY KEY` is SQLite's rowid. So the table holds one
    row per chat. The model stores rows in ascending chat id order, which is
    in practice the rowid scan order; SQLite does not promise it (see
    "## Left out").
- **Daily mailing** (`dispatch.dfy`, module `Dispatch`). `send_daily` takes a
  snapshot of the table, then walks it (`Pass`):
  - It fetches a sign's forecast on the sign's first subscriber and caches
    it for the rest of the pass.
  - It makes one send attempt per subscriber inside a `try` that swallows
    every failure.
  - The predicate `IsPass` states what a pass did, given what the fetches
    and sends gave. The lemmas beside it derive the promised properties
    from it:
    - one fetch per distinct sign;
    - one attempt per subscriber, in snapshot order;
    - identical text for subscribers of one sign;
    - send failures change nothing but their own outcome.

Two oracles stand for the outside world, and both are parameters:
- `fetch(sign, n)` is what the n-th `get_horoscope` call of a pass gives:
  a page's text, which may be the fallback text, or an exception.
- `send(chatId, message, n)` says whether the n-th subscriber's
  `send_message` succeeds.

In the source, the `get_horoscope` call (bot.py:102) is outside the `try`.
So the model follows the code: a fetch that raises ends the whole pass, and
the subscriber who triggered it and everyone after them get no attempt. The
model does not treat a failed fetch as degrading only that sign's message,
because the code does not do that.

## Model

| member | source | states |
|---|---|---|
| Signs.ToMap | bot.py:34-47 | The dict built from the entries has exactly the entries' codes as keys. |
| Signs.ToMapAt | bot.py:34-47 | When codes are unique, each entry's code maps to that entry's display name. |
| Signs.CatalogueNamesUnique | bot.py:34-47 | No two signs share a display name. |
| Signs.TableMatchesCatalogue | bot.py:34-47 | Every one of the twelve entries is in `SIGNS` under its code, with its name. |
| Signs.Table | bot.py:34-47 | `SIGNS` itself: its keys are exactly the twelve catalogue codes. |
| Signs.IsSign | bot.py:82 | `sign in SIGNS` holds exactly when some catalogue entry has that code. |
| Signs.DisplayName | bot.py:67 | `SIGNS[sign]` is defined only for a sign of the table, and it is that sign's catalogue name. |
| Signs.CodeNamedDisplayName | bot.py:34-47 | Looking a sign's display name up in the table gives the sign back, so a name identifies its sign. |
| Signs.NamedCodeIsSign | bot.py:34-47 | A code found by a display name is a sign, and that name is its display name. |
| Format.FormatMsg | bot.py:66-67 | The message starts with the fixed title, ends with the forecast verbatim, and its length is title + tags + name + forecast. |
| Format.ParseFormatMsg | bot.py:66-67 | Reading a formatted message back gives exactly the sign and the forecast it was built from. |
| Format.ParsedMsgIsFormatted | bot.py:66-67 | Every string the parser accepts is the formatted message of the pair it returns, so the parser is an exact inverse. |
| Format.FormatMsgInjective | bot.py:66-67 | Different (sign, forecast) pairs never give the same message. |
| Format.HelpLine | bot.py:75 | The line for one entry is `/`, the code, ` — `, the name and a newline: it starts with `/` and the code, ends with a newline, and is five characters longer than code and name. |
| Format.HelpText | bot.py:73-75 | The `/start` reply begins with the header `Выбери знак:` and a blank line. |
| Format.HelpTextListsEverySign | bot.py:73-75 | The help text holds, for the i-th sign, the line `/code — name` followed by a newline, at the offset that follows the i-th line. So the lines come in table order without gaps. |
| Format.Listing | bot.py:73-75 | The header-then-one-line-per-entry loop produces the header followed by every entry's help line, in order. |
| Format.StartText | bot.py:72-75 | The `/start` reply the handler builds is `HelpText()`, the listing of the catalogue. |
| Registration.DeriveSign | bot.py:79 | The derived sign contains no `/` and is no longer than the text. |
| Registration.DeriveSignKeepsPlainText | bot.py:79 | Text without a `/` is kept unchanged. |
| Registration.SlashAnywhereIsDropped | bot.py:79 | A `/` anywhere in the text, not only a leading one, is deleted. |
| Registration.CommandDerivesSign | bot.py:79 | The command `/code` of every sign derives exactly that sign's code. |
| Registration.Register | bot.py:78-85 | A valid sign maps the chat to it and adds at most that chat's key. Any other text leaves the table unchanged. Other chats' rows never change. The all-valid-signs invariant is kept. |
| Registration.LastRegistrationWins | bot.py:85 | After any sequence of commands, a chat's row holds its last accepted sign, or is as before if none was accepted. So there is one row per chat. |
| Registration.RegisterAllKeepsSigns | bot.py:82-85 | No sequence of commands puts an invalid sign into the table. |
| Registration.InsertAscending | bot.py:25 | A new rowid goes into the stored order so that it stays ascending, holds each id once, and gains exactly the new id. |
| Registration.SubscriptionStore.constructor | bot.py:20-28 | Opening the table with the rows of an earlier run gives a valid table holding exactly those rows. |
| Registration.SubscriptionStore.Subscribe | bot.py:78-88 | The table becomes `Register(old table, chat, text)`, the table invariant is kept, and the confirmation names the sign exactly when the sign is valid. |
| Registration.SubscriptionStore.ListAll | bot.py:95-96 | `SELECT chat_id, zodiac FROM users` returns every row once, in stored order, each with a valid sign. |
| Dispatch.FetchOrder | bot.py:101-102 | The order in which the loop fills `cache`: a sign is appended when its first subscriber is reached. It is never longer than the number of subscribers reached. |
| Dispatch.FetchOrderElements | bot.py:98-102 | The signs fetched by the time n subscribers are reached are exactly those subscribers' signs, none twice. |
| Dispatch.FetchOrderOncePerSign | bot.py:98-102 | Each sign among the reached subscribers is fetched exactly once and no other sign is fetched. So the fetch count equals the number of distinct signs. |
| Dispatch.FetchOrderPrefix | bot.py:100-102 | The fetch log only grows as the pass advances. |
| Dispatch.SendAttempt | bot.py:104-111 | An attempt is for its own chat. It carries a message exactly when the sign is in `SIGNS`, and that message is `format_msg(sign, forecast)`. It is delivered exactly when there is a message and its send succeeded. |
| Dispatch.AttemptCarriesForecast | bot.py:101-107 | A subscriber's message reads back as its sign and the cached forecast. |
| Dispatch.ReplayIsPrefix | bot.py:100-111 | Every state the loop reaches, turn by turn, without a raised fetch is a prefix of a pass: the fetch log is the fetch order so far, the cache holds exactly the logged signs with their pages, and there is one attempt per subscriber reached. |
| Dispatch.Pass | bot.py:98-111 | The loop's outcome satisfies `IsPass`. A completed pass fetched the distinct signs in first-seen order and made one attempt per subscriber, in order. An aborted pass stopped at the first sign whose fetch raised. Each attempt uses the page fetched for its sign. |
| Dispatch.CompletedPassFetchesEachSignOnce | bot.py:98-102 | A completed pass made as many fetches as there are distinct signs, each sign exactly once. |
| Dispatch.PageFetchesReachEveryone | bot.py:100-111 | If no fetch raises, the pass completes and every subscriber gets exactly one attempt, whatever the sends do. |
| Dispatch.SameSignSameMessage | bot.py:101-107 | Subscribers of the same sign receive identical text. |
| Dispatch.AbortedPassFacts | bot.py:100-102 | An aborted pass's fetch log is a prefix of the full fetch order, and its last fetch is the one that raised. |
| Dispatch.SendOutcomesIsolated | bot.py:104-111 | Two passes over the same snapshot and fetches, whatever their sends did, made the same fetches, got as far, and sent the same messages to the same chats. Only the delivered flags may differ. |
| Dispatch.SendDaily | bot.py:93-111 | The snapshot lists the table exactly, the pass over it satisfies `IsPass`, and every subscriber reached gets a formatted message. |

## Left out

- `get_horoscope` (bot.py:52-61): the HTTP request and the HTML extraction are foreign calls. Their result, a page text, the fallback text or an exception, is the `fetch` oracle.
- The Telegram transport: `send_message`, the `reply_text` calls of `start` and `subscribe`, and command routing in `main` (bot.py:105-109, 76, 88, 129-141). A send is only success or failure, given by the `send` oracle. `StartText` and `Subscribe` return the reply text instead of sending it.
- The SQLite connection, the database path choice, `CREATE TABLE` and `commit` (bot.py:15-29, 86). The table is the `SubscriptionStore` class. Rows left by an earlier run are the constructor's argument.
- The scheduler, `time.sleep`, the background thread and the async task (bot.py:116-124, 137-138), and `print` (bot.py:94): wall-clock, concurrency and console output.
- Reading `TOKEN` from the environment (bot.py:13).
- Registration.SubscriptionStore.ListAll: SQLite does not promise any order for a `SELECT` without `ORDER BY`. The model returns ascending chat id order, which is the rowid scan order. `Pass` and every lemma about it hold for a snapshot in any order.
- Dispatch.SendDaily: the exception that ends a pass early is reported as `completed == false`, not propagated. The scheduler task that would see it is not modelled.
