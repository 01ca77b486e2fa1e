# Reward bot allocation core, modelled in Dafny

This project models the reward-message allocation core of a Telegram
referral bot. The bot keeps four stores:

- a **corpus**: one text blob of reward messages separated by `---`;
- a **used list**: the corpus indices already handed out;
- a **user registry**: one record per user id;
- a **pending referrals** map: new user id to referrer id.

The command handlers (`/start`, `/register`, the admin's upload, `/stock`,
`/resetused`) each run one load-change-save step over these stores.

Modules, one per component:

- `Wrappers` (`wrappers.dfy`): `Option`.
- `Text` (`text.dfy`): the Python `str` behaviour the bot relies on.
  - `strip()` with the `isspace()` code points;
  - `split(sep)` as a left-to-right scan;
  - `split()` into words;
  - `endswith`.
- `Corpus` (`corpus.dfy`): `split_messages`, and the corpus text an upload produces.
- `Stock` (`ledger.dfy`): availability and reservation.
  - As functions: `Available`, `Reserve`.
  - As the class `Ledger`, which holds `corpus` and `used` in place: `get_available_messages`, `reserve_messages`, the reset and the append.
- `Registry` (`registry.dfy`): the user record and the four registry operations.
- `Bot` (`bot.dfy`): each handler as a function from the stores before the step to the stores after it (`Store`), with the lemmas about them.
  - The class `RewardBot` performs the same steps in place, calling one another as the handlers do.
  - Each method is proved equal to its function.

Invariants and guarantees:

- The invariant `StoreValid` says that `used` holds distinct indices of the current corpus, and that no reward history is longer than 50. Every step keeps it.
- An upload only appends messages, so every issued index keeps naming the same text.
- No message index is issued twice between resets.

## Model

| member | source | states |
|---|---|---|
| `Text.Strip` | rewardbot/utils.py:6 | `strip()` is never longer than its input, and its result is empty or starts and ends with a non-whitespace character |
| `Text.StripSpec` | rewardbot/utils.py:6-7 | `strip()` gives `""` exactly when the text is all whitespace |
| `Text.Split` | rewardbot/utils.py:6 | `split(sep)` always yields at least one piece |
| `Text.JoinSplit` | rewardbot/utils.py:6 | splitting loses nothing: joining the pieces with `sep` gives back the original text |
| `Text.SplitAround` | rewardbot/main.py:389 | a separator placed after a character that is not part of it splits the text into the pieces before it followed by the pieces after it |
| `Text.Words` | rewardbot/main.py:147 | `text.split()`: every word is non-empty and holds no whitespace |
| `Text.EndsWithSpec` | rewardbot/main.py:366 | `endswith(suffix)` holds exactly when the text is some text followed by `suffix` |
| `Text.WordsPrepend` | rewardbot/main.py:147-149 | a word, a whitespace character, then more text: that word comes first, then the words of the rest |
| `Corpus.SplitMessages` | rewardbot/utils.py:5-8 | every parsed message is non-empty, with no whitespace at either end |
| `Corpus.SplitMessagesMembers` | rewardbot/utils.py:5-8 | the messages are exactly the non-empty stripped separator-delimited pieces |
| `Corpus.MessagesAppend` | rewardbot/utils.py:6-7 | the messages of two runs of pieces are those of the first followed by those of the second, so the parse keeps the pieces' order |
| `Corpus.ParseBlank` | rewardbot/main.py:386-387 | a blank corpus holds no message |
| `Corpus.ParseStrip` | rewardbot/main.py:389 | stripping the corpus text changes none of its messages |
| `Corpus.ParseJoined` | rewardbot/main.py:389 | two texts joined by the separator on a line of its own parse to the messages of the first, then those of the second |
| `Corpus.Appended` | rewardbot/main.py:386-391 | the corpus after an upload parses to the old messages followed by the uploaded ones, both when the old corpus was blank and when it was not |
| `Stock.Available` | rewardbot/utils.py:16-20 | every entry pairs a corpus index missing from `used` with the message at that index; indices ascend |
| `Stock.AvailableSpec` | rewardbot/utils.py:16-20 | `available` holds exactly the pairs `(i, messages[i])` with `i` not in `used`, in ascending index order |
| `Stock.AvailableCount` | rewardbot/main.py:329-331 | while `used` holds distinct corpus indices, the available count is total less used |
| `Stock.AvailableNoneUsed` | rewardbot/main.py:347 | with an empty used list, every message is available at its own index |
| `Stock.Reserve` | rewardbot/utils.py:25-38 | `None` exactly when fewer than `count` messages are available; otherwise `count` texts, and `used` extended by exactly `count` indices |
| `Stock.ReserveSpec` | rewardbot/utils.py:25-38 | fails exactly when fewer than `count` messages are available; on success (so at least `count` were available): `count` texts; `count` indices appended to `used`, each new, ascending, matching its text; no skipped available index is smaller |
| `Stock.ReserveKeepsValid` | rewardbot/utils.py:31-36 | a reservation keeps `used` duplicate-free and within the corpus, so no index is issued twice |
| `Stock.ReserveConsumes` | rewardbot/utils.py:31-36 | after reserving `count`, the available list is the old one without its first `count` entries |
| `Stock.Ledger.GetAvailableMessages` | rewardbot/utils.py:11-22 | the enumerate-and-filter loop returns the parsed corpus, `used`, and exactly `Available(messages, used)` |
| `Stock.Ledger.ReserveMessages` | rewardbot/utils.py:25-38 | on failure `used` is unchanged and `None` is returned; on success `used` and the texts are those of `Reserve`; the append loop extends `used` by exactly the selected indices; validity is kept |
| `Stock.Ledger.ResetUsed` | rewardbot/main.py:347 | `used` becomes empty; the ledger is valid |
| `Stock.Ledger.Append` | rewardbot/main.py:384-391 | the corpus becomes the appended text; a valid ledger stays valid |
| `Registry.LastN` | rewardbot/main.py:87 | `[-n:]` for a positive `n` (the code's `[-50:]`): the whole list when it is short, otherwise its last `n` entries |
| `Registry.RegisterUser` | rewardbot/main.py:41-56 | an unknown id gets a default record under its handle or `""`; existing records are untouched; no other id appears |
| `Registry.SetRegistered` | rewardbot/main.py:59-65 | only the user's `registered` flag changes, to true; unknown id changes nothing |
| `Registry.SetJoined` | rewardbot/main.py:68-74 | only the user's `joined` flag changes, to true; unknown id changes nothing |
| `Registry.AddRewardsCount` | rewardbot/main.py:77-88 | `rewardTaken` grows by `count`; history is the last 50 of old history plus `msgs`, at most 50 long; nothing else changes; unknown id changes nothing |
| `Registry.HistoryKeepsNewest` | rewardbot/main.py:85-87 | after a batch of at most 50 texts the history ends with that batch |
| `Bot.Give` | rewardbot/main.py:91-101 | a grant never touches pending referrals or the corpus, only extends `used`, and when it fails no user record changes |
| `Bot.GiveSpec` | rewardbot/main.py:91-101 | a grant succeeds exactly when `0 < count <= available`; failure (including `count == 0`) changes nothing; success sets `used` to the reservation's new list (`count` more indices) and records the reserved texts for the user |
| `Bot.GiveKeepsValid` | rewardbot/main.py:91-101 | a grant keeps the store valid |
| `Bot.GiveKeepsFlags` | rewardbot/main.py:100 | a grant changes no user set, no flag and no referral count |
| `Bot.Referral` | rewardbot/main.py:104-132 | resolving a referral removes exactly the user's pending entry, adds or removes no user, leaves the corpus alone and only extends `used` |
| `Bot.ReferralKeepsFlags` | rewardbot/main.py:104-132 | resolving a referral always deletes exactly the user's pending entry and changes no user flag |
| `Bot.ReferralSpec` | rewardbot/main.py:104-132 | no entry: nothing changes; self-referral: only the entry goes; unknown referrer: only the entry goes; known referrer: one more referral, and when `0 < REWARD_REFERRAL <= available` also `REWARD_REFERRAL` more rewards, the reserved texts appended to the history (last 50 kept) and `used` set to the reservation's new list, otherwise `used` unchanged; every other user keeps their whole record |
| `Bot.ReferralOnce` | rewardbot/main.py:131-132 | resolving a referral twice is the same as once |
| `Bot.ReferralKeepsValid` | rewardbot/main.py:118-132 | resolving a referral keeps the store valid |
| `Bot.ReferralUsedGrows` | rewardbot/main.py:129 | resolving a referral only extends `used` |
| `Bot.Start` | rewardbot/main.py:142-166 | the sender, and no other id, gets a record; only the sender's pending entry can be added and an existing one stays; corpus and `used` untouched |
| `Bot.StartSpec` | rewardbot/main.py:142-166 | the sender's record is their old one (or a fresh one under their handle) with only `joined` set when the check passed; every other record is unchanged; an existing pending referrer is kept (first wins); otherwise the second word, if any, becomes pending |
| `Bot.StartWithReferrer` | rewardbot/main.py:147-153 | a new user arriving with `/start <referrer>` gets that referrer pending |
| `Bot.StartKeepsValid` | rewardbot/main.py:142-166 | `/start` keeps the store valid |
| `Bot.Register` | rewardbot/main.py:185-215 | `/register` removes at most the sender's pending entry, leaves the corpus alone and only extends `used` |
| `Bot.RegisterSpec` | rewardbot/main.py:185-215 | failed membership check or already registered: nothing changes; otherwise the outcome of `Bot.RegisterNewcomer` |
| `Bot.RegisterNewcomer` | rewardbot/main.py:194-215 | for a sender not yet registered (`Welcomed`): the record is marked registered and joined; without stock for `REWARD_NEW_USER` nothing else changes and the referral stays pending; with it the sender's rewards grow by `REWARD_NEW_USER`, the reserved texts join the history (last 50 kept) and the pending entry goes; a known referrer other than the sender gains one referral and, when `0 < REWARD_REFERRAL <=` the stock left after the sender's batch, `REWARD_REFERRAL` more rewards with those texts in their history (`ReferrerPaid`); `used` is the sender's reservation list, extended by the referrer's when they are paid; every other user keeps their record |
| `Bot.RegisterIdempotent` | rewardbot/main.py:198-200 | registering twice is the same as registering once |
| `Bot.RegisterKeepsValid` | rewardbot/main.py:185-215 | `/register` keeps the store valid and only extends `used` |
| `Bot.AdminOnly` | rewardbot/main.py:25-26 | for anyone but the configured administrator upload and reset change nothing and the stock report is withheld; the administrator's reset empties `used` |
| `Bot.Upload` | rewardbot/main.py:359-391 | an upload leaves users, pending and `used` alone, and the old messages stay a prefix of the parse, so every issued index names the same text |
| `Bot.UploadSpec` | rewardbot/main.py:359-391 | an admin's fetched `.txt` upload appends its messages; anything else changes nothing; users, pending, `used` untouched |
| `Bot.UploadKeepsValid` | rewardbot/main.py:384-391 | an upload keeps the store valid |
| `Bot.ResetUsed` | rewardbot/main.py:342-347 | a reset changes only `used`, and only by emptying it |
| `Bot.ResetUsedSpec` | rewardbot/main.py:342-347 | an admin reset keeps a valid store valid and makes every message available in corpus order; a non-admin reset changes nothing |
| `Bot.StockReport` | rewardbot/main.py:320-331 | figures only for the admin; the total is the number of parsed messages and equals used plus remaining |
| `Bot.StockReportSpec` | rewardbot/main.py:320-331 | the report goes to the admin only; in a valid store "remaining" equals the available count |
| `Bot.RewardBot.RegisterUser` | rewardbot/main.py:41-56 | updates `users` in place as `Registry.RegisterUser` |
| `Bot.RewardBot.SetRegistered` | rewardbot/main.py:59-65 | updates `users` in place as `Registry.SetRegistered` |
| `Bot.RewardBot.SetJoined` | rewardbot/main.py:68-74 | updates `users` in place as `Registry.SetJoined` |
| `Bot.RewardBot.AddRewardsCount` | rewardbot/main.py:77-88 | updates `users` in place as `Registry.AddRewardsCount` |
| `Bot.RewardBot.GiveRewards` | rewardbot/main.py:91-101 | reserve through the ledger, then record; result and new stores are those of `Give` |
| `Bot.RewardBot.ProcessReferral` | rewardbot/main.py:104-132 | new stores are those of `Referral` |
| `Bot.RewardBot.StartCmd` | rewardbot/main.py:142-166 | new stores are those of `Start`; validity is kept |
| `Bot.RewardBot.RegisterCmd` | rewardbot/main.py:185-215 | new stores are those of `Register`; validity is kept |
| `Bot.RewardBot.HandleDocument` | rewardbot/main.py:359-391 | new stores are those of `Upload`; validity is kept |
| `Bot.RewardBot.StockCmd` | rewardbot/main.py:320-339 | returns the `StockReport` figures; in a valid store "remaining" is the available count |
| `Bot.RewardBot.ResetUsedCmd` | rewardbot/main.py:342-348 | new stores are those of `ResetUsed`; the result is valid |

## Left out

- rewardbot/database.py (JSON and text file I/O): the four stores are fields and values held in memory. `ensure_files` is represented only by the empty initial state of the constructors.
- Telegram calls (`send_message`, `send_document`, `get_file`, `download_file`, `get_me`) are network I/O. Sends are no-ops. A send that fails between reservation and recording is not modelled.
- `check_join` is a remote membership query. Its answer is the `joined` parameter of `/start` and `/register`.
- `handle_document` download: the file's text is the `content` parameter, with `None` when the file path is missing.
  - Writing the file under `downloads/` is not modelled.
  - UTF-8 decoding is not modelled.
  - A document without a file name, on which `endswith` would raise, is not modelled.
- These handlers only render text or fan messages out, so they are not modelled: `reward_cmd`, `referral_cmd`, `cmds_cmd`, `admin_cmd`, `users_cmd`, `addtxt_cmd`, `broadcast_cmd`, `process_broadcast_text`, `join_markup`, and the polling loop.
- The `config` module is not modelled; its values are the constant `SEPARATOR` and the fields of `Config`.
  - `SEPARATOR` is the constant `---` that the upload prompt names.
  - `ADMIN_ID`, `REWARD_NEW_USER` and `REWARD_REFERRAL` are the fields of `Config`. The user-facing texts mention 2 and 3.
- User ids are the decimal strings that `str(user.id)` produces, taken as given. `is_admin` compares numeric ids. A non-numeric id, which makes `int()` raise, is not modelled.
- Handlers are modelled as atomic steps. Two handlers interleaving on the same files is not modelled.
- Counts are natural numbers. Python's negative slicing for a negative `count` is not modelled.
- Registry.AddRewardsCount: a record lacking the `reward_history` key (rewardbot/main.py:83-84) is not modelled, because every record this code creates carries one.
- `referred_by` is never written by the code, so it stays `None` in every record. The model follows the code rather than a write-once referrer field.
- The reward count grows by the requested `count`, as the code does. On success this equals the number of texts received.
- Text.StripSpec: whitespace is the fixed set of code points for which Python's `str.isspace()` is true. Unicode database versions are not modelled.
