/**
 * The per-user cooldown: a user whose last accepted message is less than
 * 20 seconds old is refused, and an accepted message records its time.
 * The clock reading is a parameter; time is a real number of seconds.
 */
module RateLimit {

  type UserId = int

  /** The cooldown window in seconds. */
  const RateLimitSeconds: real := 20.0

  /**
   * The recorded time of a user's last accepted message; a user never seen
   * reads as 0.0, the default value of the table.
   */
  function LastSeen(table: map<UserId, real>, user: UserId): real {
    if user in table then table[user] else 0.0
  }

  /** The outcome of one check: whether the user was refused, and the table afterwards. */
  datatype Decision = Decision(limited: bool, table: map<UserId, real>)

  /**
   * One check at clock reading `now`. Reading an absent user stores the
   * default 0.0 for that user, so the table gains the key even when the
   * message is refused.
   */
  function Check(table: map<UserId, real>, user: UserId, now: real): (d: Decision)
    ensures d.limited <==> now - LastSeen(table, user) < RateLimitSeconds
    ensures d.table.Keys == table.Keys + {user}
    ensures d.limited ==> LastSeen(d.table, user) == LastSeen(table, user)
    ensures !d.limited ==> d.table[user] == now
  {
    var last := LastSeen(table, user);
    var touched := table[user := last];
    if now - last < RateLimitSeconds then Decision(true, touched)
    else Decision(false, touched[user := now])
  }

  /** The shared table of last accepted message times, updated in place. */
  class RateLimiter {
    var lastMessage: map<UserId, real>

    constructor ()
      ensures lastMessage == map[]
    {
      lastMessage := map[];
    }

    /** Refuses `user` inside the cooldown window; otherwise records `now` and accepts. */
    method IsRateLimited(user: UserId, now: real) returns (limited: bool)
      modifies this
      ensures Decision(limited, lastMessage) == Check(old(lastMessage), user, now)
      ensures limited <==> now - LastSeen(old(lastMessage), user) < RateLimitSeconds
      ensures limited ==> forall u :: LastSeen(lastMessage, u) == LastSeen(old(lastMessage), u)
      ensures !limited ==> lastMessage == old(lastMessage)[user := now]
    {
      var last := if user in lastMessage then lastMessage[user] else 0.0;
      lastMessage := lastMessage[user := last];
      if now - last < RateLimitSeconds {
        return true;
      }
      lastMessage := lastMessage[user := now];
      return false;
    }
  }

  /** The table after a sequence of checks, each a user and a clock reading. */
  function After(table: map<UserId, real>, calls: seq<(UserId, real)>): map<UserId, real>
    decreases |calls|
  {
    if calls == [] then table
    else
      var n := |calls| - 1;
      Check(After(table, calls[..n]), calls[n].0, calls[n].1).table
  }

  /** Whether the `k`-th check of the sequence accepted its message. */
  predicate Accepted(table: map<UserId, real>, calls: seq<(UserId, real)>, k: nat)
    requires k < |calls|
  {
    !Check(After(table, calls[..k]), calls[k].0, calls[k].1).limited
  }

  lemma AfterStep(table: map<UserId, real>, calls: seq<(UserId, real)>, k: nat)
    requires k < |calls|
    ensures After(table, calls[..k + 1]) == Check(After(table, calls[..k]), calls[k].0, calls[k].1).table
  {
    assert calls[..k + 1][..k] == calls[..k];
  }

  /** How one check moves the recorded time of any user `u`: only an accepted message of `u` itself does. */
  lemma StepLastSeen(table: map<UserId, real>, user: UserId, now: real, u: UserId)
    ensures var d := Check(table, user, now);
      LastSeen(d.table, u) == if u == user && !d.limited then now else LastSeen(table, u)
  {
  }

  /** A check leaves the entries of every other user exactly as they were. */
  lemma OthersUntouched(table: map<UserId, real>, user: UserId, now: real, u: UserId)
    requires u != user
    ensures u in Check(table, user, now).table <==> u in table
    ensures u in table ==> Check(table, user, now).table[u] == table[u]
  {
  }

  /**
   * A recorded time never decreases, whatever the clock readings: it only
   * moves on acceptance, to a reading at least 20 seconds past it.
   */
  lemma {:induction false} LastSeenNonDecreasing(table: map<UserId, real>, calls: seq<(UserId, real)>, i: nat, j: nat, u: UserId)
    requires i <= j <= |calls|
    ensures LastSeen(After(table, calls[..j]), u) >= LastSeen(After(table, calls[..i]), u)
    decreases j
  {
    if i < j {
      var k := j - 1;
      LastSeenNonDecreasing(table, calls, i, k, u);
      AfterStep(table, calls, k);
      StepLastSeen(After(table, calls[..k]), calls[k].0, calls[k].1, u);
    }
  }

  /**
   * Two accepted messages of the same user are at least the cooldown
   * window apart, even when the clock readings are not in order.
   */
  lemma Spacing(table: map<UserId, real>, calls: seq<(UserId, real)>, i: nat, j: nat)
    requires i < j < |calls|
    requires calls[i].0 == calls[j].0
    requires Accepted(table, calls, i) && Accepted(table, calls, j)
    ensures calls[j].1 - calls[i].1 >= RateLimitSeconds
  {
    var u := calls[i].0;
    AfterStep(table, calls, i);
    StepLastSeen(After(table, calls[..i]), u, calls[i].1, u);
    LastSeenNonDecreasing(table, calls, i + 1, j, u);
  }

  /** A refused message leaves every user's recorded time as it was. */
  lemma RefusalChangesNothing(table: map<UserId, real>, calls: seq<(UserId, real)>, k: nat, u: UserId)
    requires k < |calls| && !Accepted(table, calls, k)
    ensures LastSeen(After(table, calls[..k + 1]), u) == LastSeen(After(table, calls[..k]), u)
  {
    AfterStep(table, calls, k);
  }

  /**
   * With a fixed clock: a first message accepted at `t`, a second one
   * five seconds later refused without moving the recorded time, and a
   * third one 20 seconds after the first accepted again.
   */
  lemma CooldownScenario(table: map<UserId, real>, user: UserId, t: real)
    requires t - LastSeen(table, user) >= RateLimitSeconds
    ensures var first := Check(table, user, t);
      var second := Check(first.table, user, t + 5.0);
      var third := Check(second.table, user, t + 20.0);
      !first.limited && second.limited && LastSeen(second.table, user) == t && !third.limited
  {
  }

  /** A user who has never written is accepted once the clock reads at least 20 seconds. */
  lemma NewUserAccepted(table: map<UserId, real>, user: UserId, now: real)
    requires user !in table && now >= RateLimitSeconds
    ensures !Check(table, user, now).limited
  {
  }
}
