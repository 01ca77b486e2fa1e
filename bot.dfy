/**
 * The bot's command handlers over its four stores: the user registry, the
 * pending referrals (new user id to referrer id), the corpus text and the
 * used list. Each handler is one load-change-save step; `Store` is the
 * state between two steps and the functions below give the state after
 * each step. The class `RewardBot` performs the same steps in place.
 */
module Bot {
  import opened Wrappers
  import opened Text
  import opened Corpus
  import opened Stock
  import opened Registry

  /**
   * The deployment settings: the administrator's numeric id and the size of
   * the reward batches for a new user and for a referrer.
   */
  datatype Config = Config(adminId: int, rewardNewUser: nat, rewardReferral: nat)

  /** `is_admin`: the sender is the configured administrator. */
  predicate IsAdmin(config: Config, userId: int) {
    userId == config.adminId
  }

  /** The four stores. */
  datatype Store = Store(users: Users, pending: map<string, string>, corpus: string, used: seq<int>)

  /**
   * What every step keeps: `used` holds distinct indices of the current
   * corpus, and no reward history is longer than `HISTORY_LIMIT`.
   */
  predicate StoreValid(s: Store) {
    && NoDup(s.used)
    && InRange(s.used, |SplitMessages(s.corpus)|)
    && forall u :: u in s.users ==> |s.users[u].rewardHistory| <= HISTORY_LIMIT
  }

  /**
   * `give_rewards(uid, count)`: reserve `count` messages; when nothing comes
   * back (no stock, or `count` is zero) report failure, otherwise record
   * the texts for the user and report success. The reservation stands even
   * when the user has no record.
   */
  function Give(s: Store, uid: string, count: nat): (r: (bool, Store))
    ensures r.1.pending == s.pending && r.1.corpus == s.corpus
    ensures s.used <= r.1.used
    ensures !r.0 ==> r.1.users == s.users
  {
    match Reserve(SplitMessages(s.corpus), s.used, count)
    case None => (false, s)
    case Some((msgs, after)) =>
      if msgs == [] then (false, s.(used := after))
      else (true, s.(used := after, users := AddRewardsCount(s.users, uid, count, msgs)))
  }

  /**
   * `process_referral(uid)`: a pending entry naming the user themselves is
   * dropped; one naming a known referrer credits them one referral and a
   * reward batch before it is dropped; one naming an unknown id is dropped.
   */
  function Referral(s: Store, config: Config, uid: string): (r: Store)
    ensures r.pending == s.pending - {uid}
    ensures r.corpus == s.corpus && s.used <= r.used
    ensures r.users.Keys == s.users.Keys
  {
    if uid !in s.pending then s
    else
      var referrer := s.pending[uid];
      if referrer == uid then s.(pending := s.pending - {uid})
      else if referrer in s.users then
        Give(Credit(s, referrer), referrer, config.rewardReferral).1.(pending := s.pending - {uid})
      else s.(pending := s.pending - {uid})
  }

  /** The store with one more referral counted for `referrer`. */
  function Credit(s: Store, referrer: string): Store
    requires referrer in s.users
  {
    var user := s.users[referrer];
    s.(users := s.users[referrer := user.(referrals := user.referrals + 1)])
  }

  /**
   * `start_cmd`: register the sender, record the referrer named by the
   * second word of the message unless one is already pending for them, and
   * mark them joined when the channel membership check passed.
   */
  function Start(s: Store, uid: string, username: Option<string>, text: string, joined: bool): (r: Store)
    ensures r.users.Keys == s.users.Keys + {uid}
    ensures uid in s.pending ==> r.pending == s.pending
    ensures r.pending.Keys <= s.pending.Keys + {uid}
    ensures r.corpus == s.corpus && r.used == s.used
  {
    var args := Words(text);
    var seen := s.(users := RegisterUser(s.users, uid, username));
    var referred := if |args| > 1 && uid !in s.pending then seen.(pending := s.pending[uid := args[1]]) else seen;
    if joined then referred.(users := SetJoined(referred.users, uid)) else referred
  }

  /**
   * `register_cmd`: nothing happens unless the sender passed the membership
   * check; a registered sender changes nothing; otherwise the sender is
   * marked registered and joined, granted the new-user batch, and only when
   * that grant succeeded is their pending referral resolved.
   */
  function Register(s: Store, config: Config, uid: string, username: Option<string>, joined: bool): (r: Store)
    ensures r.pending == s.pending || r.pending == s.pending - {uid}
    ensures r.corpus == s.corpus && s.used <= r.used
  {
    if !joined then s
    else
      var users := if uid in s.users then s.users else RegisterUser(s.users, uid, username);
      if users[uid].registered then s.(users := users)
      else
        var flagged := s.(users := users[uid := users[uid].(registered := true, joined := true)]);
        var (ok, given) := Give(flagged, uid, config.rewardNewUser);
        if ok then Referral(given, config, uid) else given
  }

  /**
   * `handle_document`: an administrator's `.txt` upload whose file could be
   * fetched is appended to the corpus; anything else changes nothing.
   */
  function Upload(s: Store, config: Config, sender: int, fileName: string, content: Option<string>): (r: Store)
    ensures r.users == s.users && r.pending == s.pending && r.used == s.used
    ensures SplitMessages(s.corpus) <= SplitMessages(r.corpus)
  {
    if !IsAdmin(config, sender) || !EndsWith(fileName, ".txt") || content.None? then s
    else s.(corpus := Appended(s.corpus, content.value))
  }

  /** `reset_used_cmd`: an administrator empties the used list. */
  function ResetUsed(s: Store, config: Config, sender: int): (r: Store)
    ensures r.users == s.users && r.pending == s.pending && r.corpus == s.corpus
    ensures r.used == [] || r == s
  {
    if IsAdmin(config, sender) then s.(used := []) else s
  }

  /** `stock_cmd`: for an administrator, the total, used and remaining figures. */
  function StockReport(s: Store, config: Config, sender: int): (r: Option<(int, int, int)>)
    ensures r.Some? <==> IsAdmin(config, sender)
    ensures r.Some? ==> r.value.0 == |SplitMessages(s.corpus)| && r.value.0 == r.value.1 + r.value.2
  {
    if !IsAdmin(config, sender) then None
    else
      var total := |SplitMessages(s.corpus)|;
      Some((total, |s.used|, total - |s.used|))
  }

  // ---------------------------------------------------------------- grants

  /** A batch of `count` messages can be granted: `count` is positive and that many are available. */
  predicate Grantable(s: Store, count: nat) {
    0 < count <= |Available(SplitMessages(s.corpus), s.used)|
  }

  /**
   * A grant succeeds exactly when `count` is positive and at least `count`
   * messages are available. A failed grant changes nothing. A successful
   * one sets `used` to the reservation's new list, which appends exactly
   * `count` indices, records the reserved texts for the user, and touches
   * neither the pending referrals nor the corpus.
   */
  lemma GiveSpec(s: Store, uid: string, count: nat)
    ensures var (ok, t) := Give(s, uid, count);
      && (ok <==> Grantable(s, count))
      && (!ok ==> t == s)
      && t.pending == s.pending && t.corpus == s.corpus
      && (ok ==>
        var (texts, after) := Reserve(SplitMessages(s.corpus), s.used, count).value;
        && t.used == after
        && s.used <= t.used && |t.used| == |s.used| + count
        && |texts| == count
        && t.users == AddRewardsCount(s.users, uid, count, texts))
  {
    var msgs := SplitMessages(s.corpus);
    ReserveSpec(msgs, s.used, count);
    if count == 0 {
      assert Available(msgs, s.used)[..0] == [];
      assert s.used + [] == s.used;
    }
  }

  /** A grant keeps the store valid: no index issued twice, histories bounded. */
  lemma GiveKeepsValid(s: Store, uid: string, count: nat)
    requires StoreValid(s)
    ensures StoreValid(Give(s, uid, count).1)
  {
    ReserveKeepsValid(SplitMessages(s.corpus), s.used, count);
  }

  /** A grant adds and removes no user and changes no flag and no referral count. */
  lemma GiveKeepsFlags(s: Store, uid: string, count: nat)
    ensures var t := Give(s, uid, count).1;
      && t.users.Keys == s.users.Keys
      && forall u :: u in s.users ==>
        && t.users[u].registered == s.users[u].registered
        && t.users[u].joined == s.users[u].joined
        && t.users[u].referrals == s.users[u].referrals
  {
  }

  // ------------------------------------------------------------- referrals

  /**
   * Resolving a referral always removes the user's pending entry and
   * nothing else from the pending referrals, and adds no user, removes no
   * user and changes no `registered` or `joined` flag.
   */
  lemma ReferralKeepsFlags(s: Store, config: Config, uid: string)
    ensures var t := Referral(s, config, uid);
      && t.pending == s.pending - {uid}
      && t.users.Keys == s.users.Keys
      && forall u :: u in s.users ==>
        t.users[u].registered == s.users[u].registered && t.users[u].joined == s.users[u].joined
  {
    if uid in s.pending && s.pending[uid] != uid && s.pending[uid] in s.users {
      var referrer := s.pending[uid];
      var credited := Credit(s, referrer);
      GiveKeepsFlags(credited, referrer, config.rewardReferral);
    } else if uid !in s.pending {
      assert s.pending - {uid} == s.pending;
    }
  }

  /**
   * The three outcomes of resolving a referral: without a pending entry
   * nothing changes; a self-referral only drops the entry; otherwise the
   * entry is dropped and, when the referrer is known, they gain exactly one
   * referral and, if the stock allows it, the referral batch: their reward
   * count grows by `rewardReferral`, the reserved texts join their history
   * and `used` becomes the reservation's new list. Every other user keeps
   * their whole record, and the corpus is untouched.
   */
  lemma ReferralSpec(s: Store, config: Config, uid: string)
    ensures uid !in s.pending ==> Referral(s, config, uid) == s
    ensures uid in s.pending && s.pending[uid] == uid ==>
      Referral(s, config, uid) == s.(pending := s.pending - {uid})
    ensures uid in s.pending && s.pending[uid] != uid ==>
      var t := Referral(s, config, uid);
      var referrer := s.pending[uid];
      && t.pending == s.pending - {uid}
      && t.corpus == s.corpus
      && t.users.Keys == s.users.Keys
      && (forall u :: u in s.users && u != referrer ==> t.users[u] == s.users[u])
      && (referrer !in s.users ==> t == s.(pending := s.pending - {uid}))
      && (referrer in s.users ==>
        var before := s.users[referrer];
        var counted := before.(referrals := before.referrals + 1);
        && (!Grantable(s, config.rewardReferral) ==> t.users[referrer] == counted && t.used == s.used)
        && (Grantable(s, config.rewardReferral) ==>
          var (texts, after) := Reserve(SplitMessages(s.corpus), s.used, config.rewardReferral).value;
          && t.used == after
          && t.users[referrer] == counted.(
               rewardTaken := before.rewardTaken + config.rewardReferral,
               rewardHistory := LastN(before.rewardHistory + texts, HISTORY_LIMIT))))
  {
    if uid in s.pending && s.pending[uid] != uid && s.pending[uid] in s.users {
      var referrer := s.pending[uid];
      var credited := Credit(s, referrer);
      GiveSpec(credited, referrer, config.rewardReferral);
    }
  }

  /** A referral is resolved at most once: resolving it again changes nothing. */
  lemma ReferralOnce(s: Store, config: Config, uid: string)
    ensures Referral(Referral(s, config, uid), config, uid) == Referral(s, config, uid)
  {
    ReferralSpec(s, config, uid);
  }

  /** Resolving a referral keeps the store valid. */
  lemma ReferralKeepsValid(s: Store, config: Config, uid: string)
    requires StoreValid(s)
    ensures StoreValid(Referral(s, config, uid))
  {
    if uid in s.pending && s.pending[uid] != uid && s.pending[uid] in s.users {
      var referrer := s.pending[uid];
      var credited := Credit(s, referrer);
      GiveKeepsValid(credited, referrer, config.rewardReferral);
    }
  }

  // ----------------------------------------------------------------- start

  /**
   * `/start` registers the sender and marks them joined exactly when the
   * membership check passed (or they already were); no other field of the
   * sender's record and no other user's record changes. The first referrer
   * wins: an entry already pending for the sender is kept, and otherwise
   * the second word of the message, if any, becomes their pending referrer.
   */
  lemma StartSpec(s: Store, uid: string, username: Option<string>, text: string, joined: bool)
    ensures var t := Start(s, uid, username, text, joined);
      var before := if uid in s.users then s.users[uid] else NewUser(username.GetOr(""));
      && t.users.Keys == s.users.Keys + {uid}
      && (forall u :: u in s.users && u != uid ==> t.users[u] == s.users[u])
      && t.users[uid] == before.(joined := before.joined || joined)
      && (t.users[uid].joined <==> joined || (uid in s.users && s.users[uid].joined))
      && (uid in s.pending ==> t.pending == s.pending)
      && (uid !in s.pending && |Words(text)| > 1 ==> t.pending == s.pending[uid := Words(text)[1]])
      && (|Words(text)| <= 1 ==> t.pending == s.pending)
      && t.corpus == s.corpus && t.used == s.used
  {
  }

  /**
   * A referral link opens the bot with `/start <referrer>`: a new user who
   * follows it gets that referrer pending.
   */
  lemma StartWithReferrer(s: Store, uid: string, username: Option<string>, referrer: string, joined: bool)
    requires referrer != [] && forall i :: 0 <= i < |referrer| ==> !IsSpace(referrer[i])
    requires uid !in s.pending
    ensures Start(s, uid, username, "/start " + referrer, joined).pending == s.pending[uid := referrer]
  {
    assert "/start " + referrer == "/start" + [' '] + referrer;
    WordsPrepend("/start", ' ', referrer);
    WordsSingle(referrer);
  }

  /** `/start` keeps the store valid. */
  lemma StartKeepsValid(s: Store, uid: string, username: Option<string>, text: string, joined: bool)
    requires StoreValid(s)
    ensures StoreValid(Start(s, uid, username, text, joined))
  {
    var seen := RegisterUser(s.users, uid, username);
    var t := Start(s, uid, username, text, joined);
    assert t.users == if joined then SetJoined(seen, uid) else seen;
    forall u | u in t.users ensures |t.users[u].rewardHistory| <= HISTORY_LIMIT {
      assert t.users[u].rewardHistory == seen[u].rewardHistory;
    }
  }

  // -------------------------------------------------------------- register

  /**
   * What resolving the sender's referral does to a referrer other than the
   * sender, known in `s`, when the reservation starts from `used`: the
   * referrer's record gains one referral and, if the stock allows the
   * referral batch, `rewardReferral` more rewards with the reserved texts
   * appended to the history, `used` becoming the reservation's new list;
   * otherwise `used` stays `used`.
   */
  predicate ReferrerPaid(s: Store, config: Config, referrer: string, used: seq<int>, t: Store)
    requires referrer in s.users
  {
    var prior := s.users[referrer];
    var counted := prior.(referrals := prior.referrals + 1);
    var msgs := SplitMessages(s.corpus);
    && referrer in t.users
    && (!(0 < config.rewardReferral <= |Available(msgs, used)|) ==>
      t.used == used && t.users[referrer] == counted)
    && (0 < config.rewardReferral <= |Available(msgs, used)| ==>
      var (texts, after) := Reserve(msgs, used, config.rewardReferral).value;
      && t.used == after
      && t.users[referrer] == counted.(
           rewardTaken := prior.rewardTaken + config.rewardReferral,
           rewardHistory := LastN(prior.rewardHistory + texts, HISTORY_LIMIT)))
  }

  /**
   * The outcome `t` of `/register` for a sender who passed the membership
   * check and was not registered: the sender's record (a fresh one if they
   * had none) is marked registered and joined. Without enough stock for
   * the new-user batch that is all, and the sender's referral stays
   * pending. With it, the sender's reward count grows by `rewardNewUser`,
   * the reserved texts join their history, the sender's pending entry is
   * gone, and `used` is the reservation's new list, unless a known referrer
   * other than the sender is paid from the stock left after it
   * (`ReferrerPaid`). Every other user keeps their whole record.
   */
  predicate Welcomed(s: Store, config: Config, uid: string, username: Option<string>, t: Store) {
    var before := if uid in s.users then s.users[uid] else NewUser(username.GetOr(""));
    var flagged := before.(registered := true, joined := true);
    && t.corpus == s.corpus
    && (!Grantable(s, config.rewardNewUser) ==>
      && t.used == s.used && t.pending == s.pending
      && t.users == s.users[uid := flagged])
    && (Grantable(s, config.rewardNewUser) ==>
      var (texts, after) := Reserve(SplitMessages(s.corpus), s.used, config.rewardNewUser).value;
      var referred := uid in s.pending && s.pending[uid] != uid && s.pending[uid] in s.users;
      && after <= t.used
      && t.pending == s.pending - {uid}
      && t.users.Keys == s.users.Keys + {uid}
      && t.users[uid] == flagged.(
           rewardTaken := before.rewardTaken + config.rewardNewUser,
           rewardHistory := LastN(before.rewardHistory + texts, HISTORY_LIMIT))
      && (!referred ==> t.used == after)
      && (referred ==> ReferrerPaid(s, config, s.pending[uid], after, t))
      && forall u :: u in s.users && u != uid && !(referred && u == s.pending[uid]) ==> t.users[u] == s.users[u])
  }

  /**
   * `/register` changes nothing for a sender who failed the membership
   * check or is already registered; otherwise the sender is welcomed as
   * `Welcomed` describes.
   */
  lemma RegisterSpec(s: Store, config: Config, uid: string, username: Option<string>, joined: bool)
    ensures !joined ==> Register(s, config, uid, username, joined) == s
    ensures uid in s.users && s.users[uid].registered ==> Register(s, config, uid, username, joined) == s
    ensures joined && !(uid in s.users && s.users[uid].registered) ==>
      Welcomed(s, config, uid, username, Register(s, config, uid, username, joined))
  {
    if joined && !(uid in s.users && s.users[uid].registered) {
      RegisterNewcomer(s, config, uid, username);
    }
  }

  /** `/register` by a sender who passed the membership check and is not registered yet. */
  lemma RegisterNewcomer(s: Store, config: Config, uid: string, username: Option<string>)
    requires !(uid in s.users && s.users[uid].registered)
    ensures Welcomed(s, config, uid, username, Register(s, config, uid, username, true))
  {
    var users := if uid in s.users then s.users else RegisterUser(s.users, uid, username);
    var flagged := s.(users := users[uid := users[uid].(registered := true, joined := true)]);
    GiveSpec(flagged, uid, config.rewardNewUser);
    var (ok, given) := Give(flagged, uid, config.rewardNewUser);
    if ok {
      NewcomerGranted(s, config, uid, given);
    }
  }

  /**
   * The granted half of `Welcomed`, from the store `given` right after the
   * new-user grant to the sender.
   */
  lemma NewcomerGranted(s: Store, config: Config, uid: string, given: Store)
    requires uid in given.users && given.users.Keys == s.users.Keys + {uid}
    requires given.pending == s.pending && given.corpus == s.corpus
    requires forall u :: u in s.users && u != uid ==> given.users[u] == s.users[u]
    ensures var t := Referral(given, config, uid);
      var referred := uid in s.pending && s.pending[uid] != uid && s.pending[uid] in s.users;
      && given.used <= t.used
      && t.pending == s.pending - {uid}
      && t.users.Keys == s.users.Keys + {uid}
      && t.users[uid] == given.users[uid]
      && (!referred ==> t.used == given.used)
      && (referred ==> ReferrerPaid(s, config, s.pending[uid], given.used, t))
      && forall u :: u in s.users && u != uid && !(referred && u == s.pending[uid]) ==> t.users[u] == s.users[u]
  {
    ReferralSpec(given, config, uid);
  }

  /** Registering twice is the same as registering once. */
  lemma RegisterIdempotent(s: Store, config: Config, uid: string, username: Option<string>, joined: bool)
    ensures var t := Register(s, config, uid, username, joined);
      Register(t, config, uid, username, joined) == t
  {
    var t := Register(s, config, uid, username, joined);
    RegisterSpec(s, config, uid, username, joined);
    RegisterSpec(t, config, uid, username, joined);
  }

  /** `/register` keeps the store valid and only ever extends `used`. */
  lemma RegisterKeepsValid(s: Store, config: Config, uid: string, username: Option<string>, joined: bool)
    requires StoreValid(s)
    ensures StoreValid(Register(s, config, uid, username, joined))
    ensures s.used <= Register(s, config, uid, username, joined).used
  {
    if joined {
      var users := if uid in s.users then s.users else RegisterUser(s.users, uid, username);
      if !users[uid].registered {
        var flagged := s.(users := users[uid := users[uid].(registered := true, joined := true)]);
        GiveSpec(flagged, uid, config.rewardNewUser);
        GiveKeepsValid(flagged, uid, config.rewardNewUser);
        var (ok, given) := Give(flagged, uid, config.rewardNewUser);
        if ok {
          ReferralKeepsValid(given, config, uid);
          ReferralUsedGrows(given, config, uid);
        }
      }
    }
  }

  /** Resolving a referral only ever extends `used`. */
  lemma ReferralUsedGrows(s: Store, config: Config, uid: string)
    ensures s.used <= Referral(s, config, uid).used
  {
    if uid in s.pending && s.pending[uid] != uid && s.pending[uid] in s.users {
      var referrer := s.pending[uid];
      var credited := Credit(s, referrer);
      GiveSpec(credited, referrer, config.rewardReferral);
    }
  }

  // ------------------------------------------------------------ admin side

  /**
   * Only the configured administrator can change the corpus or `used`
   * through the admin commands or see the stock: for any other sender an
   * upload and a reset leave the stores as they are and the report is
   * withheld, while the administrator's reset empties `used`.
   */
  lemma AdminOnly(s: Store, config: Config, sender: int, fileName: string, content: Option<string>)
    ensures !IsAdmin(config, sender) ==>
      && Upload(s, config, sender, fileName, content) == s
      && ResetUsed(s, config, sender) == s
      && StockReport(s, config, sender) == None
    ensures IsAdmin(config, sender) ==> ResetUsed(s, config, sender).used == []
  {
  }

  /**
   * An upload of a fetched `.txt` file by the administrator leaves the
   * corpus parsing to its old messages followed by the uploaded ones, so
   * every issued index still names the same text; any other upload
   * changes nothing. Users, pending referrals and `used` are untouched.
   */
  lemma UploadSpec(s: Store, config: Config, sender: int, fileName: string, content: Option<string>)
    ensures var t := Upload(s, config, sender, fileName, content);
      && t.users == s.users && t.pending == s.pending && t.used == s.used
      && (IsAdmin(config, sender) && EndsWith(fileName, ".txt") && content.Some? ==>
        SplitMessages(t.corpus) == SplitMessages(s.corpus) + SplitMessages(content.value))
      && (!(IsAdmin(config, sender) && EndsWith(fileName, ".txt") && content.Some?) ==> t == s)
  {
  }

  /** An upload keeps the store valid: the corpus only gains messages. */
  lemma UploadKeepsValid(s: Store, config: Config, sender: int, fileName: string, content: Option<string>)
    requires StoreValid(s)
    ensures StoreValid(Upload(s, config, sender, fileName, content))
  {
  }

  /**
   * After the administrator's reset every message of the corpus is
   * available again, in corpus order; a reset by anyone else changes nothing.
   */
  lemma ResetUsedSpec(s: Store, config: Config, sender: int)
    ensures !IsAdmin(config, sender) ==> ResetUsed(s, config, sender) == s
    ensures IsAdmin(config, sender) ==>
      var t := ResetUsed(s, config, sender);
      var msgs := SplitMessages(t.corpus);
      && (StoreValid(s) ==> StoreValid(t))
      && t.users == s.users && t.pending == s.pending && t.corpus == s.corpus
      && |Available(msgs, t.used)| == |msgs|
      && forall i :: 0 <= i < |msgs| ==> Available(msgs, t.used)[i] == (i, msgs[i])
  {
    if IsAdmin(config, sender) {
      AvailableNoneUsed(SplitMessages(s.corpus), |SplitMessages(s.corpus)|);
    }
  }

  /**
   * The stock report goes to the administrator only. While the store is
   * valid its "remaining" figure is the number of available messages, so
   * it is never negative.
   */
  lemma StockReportSpec(s: Store, config: Config, sender: int)
    ensures StockReport(s, config, sender).Some? <==> IsAdmin(config, sender)
    ensures StoreValid(s) && IsAdmin(config, sender) ==>
      var (total, usedCount, remaining) := StockReport(s, config, sender).value;
      && total == |SplitMessages(s.corpus)| && usedCount == |s.used|
      && remaining == |Available(SplitMessages(s.corpus), s.used)|
  {
    if StoreValid(s) {
      AvailableCount(SplitMessages(s.corpus), s.used);
    }
  }

  // ------------------------------------------------------------- the class

  /** The bot with its stores held in place. */
  class RewardBot {
    var users: Users
    var pending: map<string, string>
    const ledger: Ledger
    const config: Config

    /** The four stores as one value. */
    ghost function State(): Store
      reads this, ledger
    {
      Store(users, pending, ledger.corpus, ledger.used)
    }

    ghost predicate Valid()
      reads this, ledger
    {
      StoreValid(State())
    }

    /** A fresh install: every store empty. */
    constructor (config: Config)
      ensures State() == Store(map[], map[], "", [])
      ensures this.config == config
      ensures Valid()
    {
      users := map[];
      pending := map[];
      ledger := new Ledger();
      this.config := config;
    }

    /** `register_user`. */
    method RegisterUser(uid: string, username: Option<string>)
      modifies this`users
      ensures users == Registry.RegisterUser(old(users), uid, username)
    {
      if uid !in users {
        users := users[uid := NewUser(username.GetOr(""))];
      }
    }

    /** `set_registered`. */
    method SetRegistered(uid: string)
      modifies this`users
      ensures users == Registry.SetRegistered(old(users), uid)
    {
      if uid in users {
        users := users[uid := users[uid].(registered := true)];
      }
    }

    /** `set_joined`. */
    method SetJoined(uid: string)
      modifies this`users
      ensures users == Registry.SetJoined(old(users), uid)
    {
      if uid in users {
        users := users[uid := users[uid].(joined := true)];
      }
    }

    /** `add_rewards_count`. */
    method AddRewardsCount(uid: string, count: nat, msgs: seq<string>)
      modifies this`users
      ensures users == Registry.AddRewardsCount(old(users), uid, count, msgs)
    {
      if uid in users {
        var user := users[uid];
        var history := user.rewardHistory + msgs;
        history := LastN(history, HISTORY_LIMIT);
        users := users[uid := user.(rewardTaken := user.rewardTaken + count, rewardHistory := history)];
      }
    }

    /** `give_rewards`. */
    method GiveRewards(uid: string, count: nat) returns (ok: bool)
      modifies this`users, ledger`used
      ensures (ok, State()) == Give(old(State()), uid, count)
    {
      var msgs := ledger.ReserveMessages(count);
      if msgs.None? || msgs.value == [] {
        return false;
      }
      AddRewardsCount(uid, count, msgs.value);
      ok := true;
    }

    /** `process_referral`. */
    method ProcessReferral(uid: string)
      modifies this`users, this`pending, ledger`used
      ensures State() == Referral(old(State()), config, uid)
    {
      if uid !in pending {
        return;
      }
      var referrer := pending[uid];
      if referrer == uid {
        pending := pending - {uid};
        return;
      }
      if referrer in users {
        users := users[referrer := users[referrer].(referrals := users[referrer].referrals + 1)];
        var _ := GiveRewards(referrer, config.rewardReferral);
      }
      pending := pending - {uid};
    }

    /** `start_cmd`, with the membership check's answer passed in as `joined`. */
    method StartCmd(uid: string, username: Option<string>, text: string, joined: bool)
      modifies this`users, this`pending
      ensures State() == Start(old(State()), uid, username, text, joined)
      ensures old(Valid()) ==> Valid()
    {
      RegisterUser(uid, username);
      var args := Words(text);
      if |args| > 1 {
        var referrer := args[1];
        if uid !in pending {
          pending := pending[uid := referrer];
        }
      }
      if !joined {
        return;
      }
      SetJoined(uid);
      if old(Valid()) {
        StartKeepsValid(old(State()), uid, username, text, joined);
      }
    }

    /** `register_cmd`, with the membership check's answer passed in as `joined`. */
    method RegisterCmd(uid: string, username: Option<string>, joined: bool)
      modifies this`users, this`pending, ledger`used
      ensures State() == Register(old(State()), config, uid, username, joined)
      ensures old(Valid()) ==> Valid()
    {
      if !joined {
        return;
      }
      if uid !in users {
        RegisterUser(uid, username);
      }
      if users[uid].registered {
        return;
      }
      users := users[uid := users[uid].(registered := true, joined := true)];
      var ok := GiveRewards(uid, config.rewardNewUser);
      if ok {
        ProcessReferral(uid);
      }
      if old(Valid()) {
        RegisterKeepsValid(old(State()), config, uid, username, joined);
      }
    }

    /**
     * `handle_document`: `content` is the downloaded file's text, or `None`
     * when the file could not be fetched.
     */
    method HandleDocument(sender: int, fileName: string, content: Option<string>)
      modifies ledger`corpus
      ensures State() == Upload(old(State()), config, sender, fileName, content)
      ensures old(Valid()) ==> Valid()
    {
      if !IsAdmin(config, sender) {
        return;
      }
      if !EndsWith(fileName, ".txt") {
        return;
      }
      if content.None? {
        return;
      }
      ledger.Append(content.value);
    }

    /** `stock_cmd`: the report, or `None` for a sender who is not the administrator. */
    method StockCmd(sender: int) returns (r: Option<(int, int, int)>)
      ensures r == StockReport(State(), config, sender)
      ensures Valid() && r.Some? ==> r.value.2 == |Available(SplitMessages(ledger.corpus), ledger.used)|
    {
      if !IsAdmin(config, sender) {
        return None;
      }
      var messages := SplitMessages(ledger.corpus);
      var total := |messages|;
      var usedCount := |ledger.used|;
      var remaining := total - usedCount;
      r := Some((total, usedCount, remaining));
      StockReportSpec(State(), config, sender);
    }

    /** `reset_used_cmd`. */
    method ResetUsedCmd(sender: int)
      modifies ledger`used
      ensures State() == ResetUsed(old(State()), config, sender)
      ensures old(Valid()) ==> Valid()
    {
      if !IsAdmin(config, sender) {
        return;
      }
      ledger.ResetUsed();
    }
  }
}
