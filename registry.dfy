/**
 * The user registry: one record per user id, created with defaults on first
 * contact and changed by the registration, join and reward steps. Each
 * operation below maps the registry before the step to the registry after it;
 * an operation on an id that has no record leaves the registry as it is.
 */
module Registry {
  import opened Wrappers

  /** How many reward texts a record keeps: older ones are dropped first. */
  const HISTORY_LIMIT: nat := 50

  datatype User = User(
    username: string,
    registered: bool,
    joined: bool,
    referrals: nat,
    referredBy: Option<string>,
    rewardTaken: nat,
    rewardHistory: seq<string>)

  /** The registry, keyed by the user id in its decimal string form. */
  type Users = map<string, User>

  /** The record of a user seen for the first time. */
  function NewUser(username: string): User {
    User(username, false, false, 0, None, 0, [])
  }

  /**
   * `s[-n:]` for a positive `n` (the registry only ever uses
   * `HISTORY_LIMIT`): the last `n` entries of `s`, or all of `s` when it is
   * shorter.
   */
  function LastN(s: seq<string>, n: nat): (r: seq<string>)
    requires n > 0
    ensures |s| <= n ==> r == s
    ensures |s| > n ==> |r| == n
    ensures r == s[|s| - |r|..]
  {
    if |s| <= n then s else s[|s| - n..]
  }

  /**
   * `register_user`: a user without a record gets a fresh one under the
   * handle they have (or `""` when they have none); every existing record,
   * theirs included, is left as it was.
   */
  function RegisterUser(users: Users, uid: string, username: Option<string>): (r: Users)
    ensures r.Keys == users.Keys + {uid}
    ensures forall u :: u in users ==> r[u] == users[u]
    ensures uid !in users ==> r[uid] == NewUser(username.GetOr(""))
  {
    if uid in users then users else users[uid := NewUser(username.GetOr(""))]
  }

  /**
   * `set_registered`: the user's `registered` flag becomes true; nothing
   * else in the registry changes, and an unknown id changes nothing.
   */
  function SetRegistered(users: Users, uid: string): (r: Users)
    ensures r.Keys == users.Keys
    ensures forall u :: u in users && u != uid ==> r[u] == users[u]
    ensures uid in users ==> r[uid].registered && r[uid].(registered := users[uid].registered) == users[uid]
  {
    if uid in users then users[uid := users[uid].(registered := true)] else users
  }

  /**
   * `set_joined`: the user's `joined` flag becomes true; nothing else in
   * the registry changes, and an unknown id changes nothing.
   */
  function SetJoined(users: Users, uid: string): (r: Users)
    ensures r.Keys == users.Keys
    ensures forall u :: u in users && u != uid ==> r[u] == users[u]
    ensures uid in users ==> r[uid].joined && r[uid].(joined := users[uid].joined) == users[uid]
  {
    if uid in users then users[uid := users[uid].(joined := true)] else users
  }

  /**
   * `add_rewards_count`: the user's reward count grows by `count` and the
   * texts `msgs` are appended to their history, which then keeps only its
   * last `HISTORY_LIMIT` entries; no other field and no other user changes,
   * and an unknown id changes nothing.
   */
  function AddRewardsCount(users: Users, uid: string, count: nat, msgs: seq<string>): (r: Users)
    ensures r.Keys == users.Keys
    ensures forall u :: u in users && u != uid ==> r[u] == users[u]
    ensures uid in users ==>
      && r[uid].rewardTaken == users[uid].rewardTaken + count
      && r[uid].rewardHistory == LastN(users[uid].rewardHistory + msgs, HISTORY_LIMIT)
      && |r[uid].rewardHistory| <= HISTORY_LIMIT
      && r[uid].(rewardTaken := users[uid].rewardTaken, rewardHistory := users[uid].rewardHistory) == users[uid]
  {
    if uid in users then
      var user := users[uid];
      users[uid := user.(rewardTaken := user.rewardTaken + count,
                         rewardHistory := LastN(user.rewardHistory + msgs, HISTORY_LIMIT))]
    else users
  }

  /**
   * The history keeps the most recent texts: after a batch of at most
   * `HISTORY_LIMIT` texts it ends with that batch, in order, and it is
   * never longer than the old history plus the batch.
   */
  lemma HistoryKeepsNewest(users: Users, uid: string, count: nat, msgs: seq<string>)
    requires uid in users && |msgs| <= HISTORY_LIMIT
    ensures var h := AddRewardsCount(users, uid, count, msgs)[uid].rewardHistory;
      && |msgs| <= |h| <= |users[uid].rewardHistory| + |msgs|
      && h[|h| - |msgs|..] == msgs
  {
    var whole := users[uid].rewardHistory + msgs;
    var h := AddRewardsCount(users, uid, count, msgs)[uid].rewardHistory;
    assert h == whole[|whole| - |h|..];
    assert h[|h| - |msgs|..] == whole[|whole| - |msgs|..];
    assert whole[|whole| - |msgs|..] == msgs;
  }
}
