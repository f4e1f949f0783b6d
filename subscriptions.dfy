/**
 * `POST /api/subscriptions` and `GET /api/subscriptions`: the
 * (subscriber, channel) pairs of the `subscriptions` table, toggled one at
 * a time, with no user subscribed to their own channel.
 */
module Subscriptions {
  import opened Wrappers
  import opened Jwt
  import opened Api

  /** The rows of `subscriptions` as (subscriber_id, channel_id); UNIQUE(subscriber_id, channel_id) makes them a set. */
  type Pairs = set<(int, int)>

  /** The JSON body `{ channelId }`; a missing or `null` id is `None`. */
  datatype SubscribeBody = SubscribeBody(channelId: Option<int>)

  /**
   * The checks of `POST /api/subscriptions` in their order; `body` is `None`
   * when `request.json()` throws. A channel id of 0 is falsy.
   */
  function SubscribeRefusal(user: Option<Claims>, body: Option<SubscribeBody>): (e: Option<(int, string)>)
    ensures user.None? ==> e == Some((401, "Unauthorized"))
    ensures user.Some? && body.None? ==> e == Some((500, "Failed to process subscription"))
    ensures user.Some? && body.Some? && (body.value.channelId.None? || body.value.channelId.value == 0)
      ==> e == Some((400, "Channel ID is required"))
    ensures e.None? <==> (user.Some? && body.Some? && body.value.channelId.Some?
      && body.value.channelId.value != 0 && body.value.channelId.value != user.value.id)
    ensures user.Some? && body.Some? && body.value.channelId == Some(user.value.id) && user.value.id != 0
      ==> e == Some((400, "Cannot subscribe to yourself"))
  {
    if user.None? then Some((401, "Unauthorized"))
    else if body.None? then Some((500, "Failed to process subscription"))
    else if body.value.channelId.None? || body.value.channelId.value == 0 then Some((400, "Channel ID is required"))
    else if body.value.channelId.value == user.value.id then Some((400, "Cannot subscribe to yourself"))
    else None
  }

  /**
   * What a subscribe request for `pair` does: an existing row is deleted and
   * the reply is `subscribed: false`, a missing one is inserted and the reply
   * is `subscribed: true`. Exactly that pair changes.
   */
  function Flip(pairs: Pairs, pair: (int, int)): (o: (bool, Pairs))
    ensures o.0 <==> pair !in pairs
    ensures forall p :: p in o.1 <==> (p in pairs) != (p == pair)
  {
    if pair in pairs then (false, pairs - {pair}) else (true, pairs + {pair})
  }

  /** Two requests for the same channel give the table back, and their replies disagree. */
  lemma FlipTwice(pairs: Pairs, pair: (int, int))
    ensures Flip(Flip(pairs, pair).1, pair).1 == pairs
    ensures Flip(Flip(pairs, pair).1, pair).0 == !Flip(pairs, pair).0
  {
    var once := Flip(pairs, pair).1;
    var twice := Flip(once, pair).1;
    assert forall p :: p in twice <==> p in pairs;
  }

  /**
   * `GET /api/subscriptions?channelId=…`: whether the signed-in user
   * follows the channel; `false` without a user or a channel id.
   */
  function Subscribed(user: Option<Claims>, channelId: Option<int>, pairs: Pairs): (b: bool)
    ensures b <==> user.Some? && channelId.Some? && (user.value.id, channelId.value) in pairs
  {
    user.Some? && channelId.Some? && (user.value.id, channelId.value) in pairs
  }

  /** No user follows their own channel. */
  predicate NoSelfSubscription(pairs: Pairs) {
    forall p :: p in pairs ==> p.0 != p.1
  }

  /** An accepted request never pairs a user with their own channel, so the flip keeps the table free of such rows. */
  lemma FlipKeepsNoSelf(pairs: Pairs, user: Claims, body: SubscribeBody)
    requires NoSelfSubscription(pairs)
    requires SubscribeRefusal(Some(user), Some(body)).None?
    ensures NoSelfSubscription(Flip(pairs, (user.id, body.channelId.value)).1)
  {
  }

  /** The `subscriptions` table. */
  class SubscriptionsTable {
    var pairs: Pairs

    predicate Valid()
      reads this
    {
      NoSelfSubscription(pairs)
    }

    constructor(initial: Pairs)
      requires NoSelfSubscription(initial)
      ensures pairs == initial && Valid()
    {
      pairs := initial;
    }

    /**
     * `POST /api/subscriptions` by `user`: a refused request changes
     * nothing; an accepted one flips the pair (user, channel).
     */
    method Post(user: Option<Claims>, body: Option<SubscribeBody>) returns (r: Response<bool>)
      requires Valid()
      modifies this
      ensures Valid()
      ensures r.Failure? <==> SubscribeRefusal(user, body).Some?
      ensures r.Failure? ==> (r.status, r.error) == SubscribeRefusal(user, body).value && pairs == old(pairs)
      ensures r.Json? ==> (r.status == 200
        && var o := Flip(old(pairs), (user.value.id, body.value.channelId.value));
        r.value == o.0 && pairs == o.1)
    {
      var refusal := SubscribeRefusal(user, body);
      if refusal.Some? {
        return Failure(refusal.value.0, refusal.value.1);
      }
      var pair := (user.value.id, body.value.channelId.value);
      if pair in pairs {
        pairs := pairs - {pair};
        r := Json(200, false);
      } else {
        pairs := pairs + {pair};
        r := Json(200, true);
      }
    }
  }

  /** After an accepted request, `GET /api/subscriptions` for the same channel reports what the POST replied. */
  lemma PostThenGet(pairs: Pairs, user: Claims, channelId: int)
    ensures Subscribed(Some(user), Some(channelId), Flip(pairs, (user.id, channelId)).1) == Flip(pairs, (user.id, channelId)).0
  {
  }
}
