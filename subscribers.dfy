/** The discovery subscriber list as values: the entries, removal by id as
    the service performs it, and the notifications a snapshot fan-out sends. */
module Subscribers {
  import opened DeviceInfo

  /** The subscription's unique token (a Guid in the source). */
  type SubscriptionId = nat
  /** Identity of the observer a subscription forwards to. */
  type ObserverId = nat

  datatype Subscription = Subscription(id: SubscriptionId, observer: ObserverId)

  /** One callback delivered to a subscription's observer. */
  datatype Notification =
    | Next(to: Subscription, device: BluetoothDeviceInfo)
    | Completed(to: Subscription)

  /** The entries whose id differs from `id`, in their original order. */
  function Without(subs: seq<Subscription>, id: SubscriptionId): (r: seq<Subscription>)
    ensures |r| <= |subs|
    ensures forall s :: s in r <==> s in subs && s.id != id
  {
    if subs == [] then []
    else if subs[0].id == id then Without(subs[1..], id)
    else [subs[0]] + Without(subs[1..], id)
  }

  /** The entries whose id is `id`, in list order (the source's `Where(...).ToArray()`). */
  function Matching(subs: seq<Subscription>, id: SubscriptionId): (r: seq<Subscription>)
    ensures |r| <= |subs|
    ensures forall s :: s in r <==> s in subs && s.id == id
  {
    if subs == [] then []
    else if subs[0].id == id then [subs[0]] + Matching(subs[1..], id)
    else Matching(subs[1..], id)
  }

  /** `List.Remove`: drops the first entry equal to `x`, if any. */
  function RemoveFirst(subs: seq<Subscription>, x: Subscription): (r: seq<Subscription>)
    ensures multiset(r) == multiset(subs) - multiset{x}
    ensures x !in subs ==> r == subs
  {
    if subs == [] then []
    else if subs[0] == x then
      assert subs == [subs[0]] + subs[1..];
      subs[1..]
    else
      assert subs == [subs[0]] + subs[1..];
      [subs[0]] + RemoveFirst(subs[1..], x)
  }

  /** Removing one entry carrying `id` leaves the other entries as they were. */
  lemma {:induction false} WithoutRemoveFirst(subs: seq<Subscription>, x: Subscription, id: SubscriptionId)
    requires x.id == id
    ensures Without(RemoveFirst(subs, x), id) == Without(subs, id)
  {
    if subs != [] && subs[0] != x {
      var rest := RemoveFirst(subs[1..], x);
      WithoutRemoveFirst(subs[1..], x, id);
      assert ([subs[0]] + rest)[1..] == rest;
    }
  }

  /** Removing one entry carrying `id` removes it from the matching entries too. */
  lemma {:induction false} MatchingRemoveFirst(subs: seq<Subscription>, x: Subscription, id: SubscriptionId)
    requires x.id == id
    ensures Matching(RemoveFirst(subs, x), id) == RemoveFirst(Matching(subs, id), x)
  {
    if subs != [] {
      var m := Matching(subs[1..], id);
      if subs[0] == x {
        assert Matching(subs, id) == [x] + m;
        assert ([x] + m)[1..] == m;
      } else {
        var rest := RemoveFirst(subs[1..], x);
        MatchingRemoveFirst(subs[1..], x, id);
        assert ([subs[0]] + rest)[1..] == rest;
        if subs[0].id == id {
          assert ([subs[0]] + m)[1..] == m;
        }
      }
    }
  }

  /** One step of the removal loop: taking out the first entry that carries
      `id` keeps the others and leaves the rest of the matching entries. */
  lemma {:induction false} RemoveOneMatching(subs: seq<Subscription>, x: Subscription, id: SubscriptionId)
    requires Matching(subs, id) != [] && x == Matching(subs, id)[0]
    ensures x.id == id
    ensures Without(RemoveFirst(subs, x), id) == Without(subs, id)
    ensures Matching(RemoveFirst(subs, x), id) == Matching(subs, id)[1..]
  {
    assert x in Matching(subs, id);
    WithoutRemoveFirst(subs, x, id);
    MatchingRemoveFirst(subs, x, id);
  }

  /** A list with no entry carrying `id` is its own `Without`. */
  lemma {:induction false} NoMatchingIsFixed(subs: seq<Subscription>, id: SubscriptionId)
    requires Matching(subs, id) == []
    ensures Without(subs, id) == subs
  {
    if subs != [] {
      assert |Matching(subs, id)| == 0;
      NoMatchingIsFixed(subs[1..], id);
      assert subs == [subs[0]] + subs[1..];
    }
  }

  /** A list in which no entry carries `id` has no matching entries. */
  lemma {:induction false} NoneMatching(subs: seq<Subscription>, id: SubscriptionId)
    requires forall e :: e in subs ==> e.id != id
    ensures Matching(subs, id) == []
  {
    if subs != [] {
      assert subs[0] in subs;
      NoneMatching(subs[1..], id);
    }
  }

  /** Removal keeps order: it acts on each part of a concatenation separately. */
  lemma {:induction false} WithoutAppend(a: seq<Subscription>, b: seq<Subscription>, id: SubscriptionId)
    ensures Without(a + b, id) == Without(a, id) + Without(b, id)
  {
    if a != [] {
      assert a + b != [];
      assert (a + b)[0] == a[0];
      assert (a + b)[1..] == a[1..] + b;
      WithoutAppend(a[1..], b, id);
    } else {
      assert a + b == b;
    }
  }

  /** Removal by id is idempotent. */
  lemma {:induction false} WithoutIdempotent(subs: seq<Subscription>, id: SubscriptionId)
    ensures Without(Without(subs, id), id) == Without(subs, id)
  {
    var w := Without(subs, id);
    NoneMatching(w, id);
    NoMatchingIsFixed(w, id);
  }

  /** Subscribing with a fresh token and then disposing that subscription
      restores the list. */
  lemma SubscribeThenRemove(subs: seq<Subscription>, s: Subscription)
    requires forall e :: e in subs ==> e.id != s.id
    ensures Without(subs + [s], s.id) == subs
  {
    WithoutAppend(subs, [s], s.id);
    NoneMatching(subs, s.id);
    NoMatchingIsFixed(subs, s.id);
    assert [s][1..] == [];
  }

  /** The completions a fan-out over `snapshot` sends: one per entry, in order. */
  function CompletedAll(snapshot: seq<Subscription>): (r: seq<Notification>)
    ensures |r| == |snapshot|
    ensures forall i :: 0 <= i < |r| ==> r[i] == Completed(snapshot[i])
  {
    if snapshot == [] then []
    else [Completed(snapshot[0])] + CompletedAll(snapshot[1..])
  }

  /** One more subscriber in the snapshot adds its completion at the end. */
  lemma CompletedAllSnoc(snapshot: seq<Subscription>, k: nat)
    requires k < |snapshot|
    ensures CompletedAll(snapshot[..k + 1]) == CompletedAll(snapshot[..k]) + [Completed(snapshot[k])]
  {
  }

  /** The `Next(device)` calls a fan-out over `snapshot` sends: one per entry, in order. */
  function NextAll(snapshot: seq<Subscription>, device: BluetoothDeviceInfo): (r: seq<Notification>)
    ensures |r| == |snapshot|
    ensures forall i :: 0 <= i < |r| ==> r[i] == Next(snapshot[i], device)
  {
    if snapshot == [] then []
    else [Next(snapshot[0], device)] + NextAll(snapshot[1..], device)
  }

  /** One more subscriber in the snapshot adds its `Next` call at the end. */
  lemma NextAllSnoc(snapshot: seq<Subscription>, device: BluetoothDeviceInfo, k: nat)
    requires k < |snapshot|
    ensures NextAll(snapshot[..k + 1], device) == NextAll(snapshot[..k], device) + [Next(snapshot[k], device)]
  {
  }

  /** The `Next` calls of several deliveries of one found broadcast, one
      delivery per handle in order, each reaching the whole snapshot. */
  function NextRounds(snapshot: seq<Subscription>, handles: seq<BluetoothDeviceInfo>): seq<Notification>
  {
    if handles == [] then []
    else NextRounds(snapshot, handles[..|handles| - 1]) + NextAll(snapshot, handles[|handles| - 1])
  }

  /** One more delivery appends its `Next` calls after the earlier ones. */
  lemma NextRoundsSnoc(snapshot: seq<Subscription>, handles: seq<BluetoothDeviceInfo>, h: BluetoothDeviceInfo)
    ensures NextRounds(snapshot, handles + [h]) == NextRounds(snapshot, handles) + NextAll(snapshot, h)
  {
    assert (handles + [h])[..|handles|] == handles;
  }

  /** One more factor adds one more copy of the other. */
  lemma MulSucc(n: nat, m: nat)
    ensures (n + 1) * m == n * m + m
  {
  }

  /** Each delivery reaches every subscriber once: the subscribers hear
      of the device as many times as there are deliveries. */
  lemma {:induction false} NextRoundsLength(snapshot: seq<Subscription>, handles: seq<BluetoothDeviceInfo>)
    ensures |NextRounds(snapshot, handles)| == |handles| * |snapshot|
  {
    if handles != [] {
      NextRoundsLength(snapshot, handles[..|handles| - 1]);
      MulSucc(|handles| - 1, |snapshot|);
    }
  }
}
