/** The web client's stores: the toast notification list and the peer list
    with its derived online status. A store's list is a field replaced by
    each update; the API answers, the clock and the fresh identifiers
    (`crypto.randomUUID`) are inputs. */
module UiStores {
  import opened Wrappers
  import opened WgTypes

  // ---------------------------------------------------------------------------
  // Notifications

  datatype NoticeKind = Success | Failure | Warning | Info

  /** A toast; `duration` is absent when the caller gave none. */
  datatype Notification = Notification(id: string, kind: NoticeKind, message: string, duration: Option<int>)

  /** A removal scheduled with `setTimeout`. */
  datatype Timer = Timer(id: string, delay: int)

  const DefaultDuration := 3000

  /** `notification.duration ?? 3000`. */
  function EffectiveDuration(duration: Option<int>): (d: int)
    ensures duration.None? ==> d == DefaultDuration
    ensures duration.Some? ==> d == duration.value
  {
    duration.GetOr(DefaultDuration)
  }

  /** The list without the entries carrying the id, the others in order. */
  function WithoutId(ns: seq<Notification>, id: string): seq<Notification> {
    if ns == [] then []
    else
      var rest := WithoutId(ns[1..], id);
      if ns[0].id == id then rest else [ns[0]] + rest
  }

  /** Exactly the entries with other ids remain, and a list without the id
      is left as it is. */
  lemma {:induction false} WithoutIdMembers(ns: seq<Notification>, id: string)
    ensures |WithoutId(ns, id)| <= |ns|
    ensures forall n :: n in WithoutId(ns, id) <==> n in ns && n.id != id
    ensures (forall k :: 0 <= k < |ns| ==> ns[k].id != id) ==> WithoutId(ns, id) == ns
    decreases |ns|
  {
    if ns != [] {
      WithoutIdMembers(ns[1..], id);
      assert forall n :: n in ns <==> n == ns[0] || n in ns[1..];
      assert ns == [ns[0]] + ns[1..];
    }
  }

  /** Filtering keeps the order: it distributes over concatenation. */
  lemma {:induction false} WithoutIdAppend(a: seq<Notification>, b: seq<Notification>, id: string)
    ensures WithoutId(a + b, id) == WithoutId(a, id) + WithoutId(b, id)
    decreases |a|
  {
    if a != [] {
      WithoutIdAppend(a[1..], b, id);
      assert (a + b)[0] == a[0] && (a + b)[1..] == a[1..] + b;
    } else {
      assert a + b == b;
    }
  }

  /** Removing twice is removing once. */
  lemma WithoutIdIdempotent(ns: seq<Notification>, id: string)
    ensures WithoutId(WithoutId(ns, id), id) == WithoutId(ns, id)
  {
  }

  class NotificationStore {
    var notifications: seq<Notification>
    var timers: seq<Timer>

    constructor ()
      ensures notifications == [] && timers == []
    {
      notifications := [];
      timers := [];
    }

    /** `add`: the notification with the fresh id appended, earlier entries
        untouched; its removal is scheduled only for a positive duration,
        3000 ms when none is given. */
    method Add(kind: NoticeKind, message: string, duration: Option<int>, freshId: string)
      modifies this
      ensures notifications == old(notifications) + [Notification(freshId, kind, message, duration)]
      ensures EffectiveDuration(duration) > 0 ==> timers == old(timers) + [Timer(freshId, EffectiveDuration(duration))]
      ensures EffectiveDuration(duration) <= 0 ==> timers == old(timers)
    {
      var n := Notification(freshId, kind, message, duration);
      notifications := notifications + [n];
      var d := if duration.Some? then duration.value else DefaultDuration;
      if d > 0 {
        timers := timers + [Timer(freshId, d)];
      }
    }

    /** `remove`: every entry with the id dropped, the others in order. */
    method Remove(id: string)
      modifies this
      ensures notifications == WithoutId(old(notifications), id)
      ensures timers == old(timers)
    {
      notifications := WithoutId(notifications, id);
    }

    /** A scheduled removal that comes due. */
    method Fire(i: nat)
      requires i < |timers|
      modifies this
      ensures notifications == WithoutId(old(notifications), old(timers)[i].id)
      ensures timers == old(timers)[..i] + old(timers)[i + 1..]
    {
      var t := timers[i];
      timers := timers[..i] + timers[i + 1..];
      Remove(t.id);
    }
  }

  /** Adding a notification with a fresh id and removing it again gives the
      list back. */
  lemma AddThenRemove(ns: seq<Notification>, n: Notification)
    requires forall k :: 0 <= k < |ns| ==> ns[k].id != n.id
    ensures WithoutId(ns + [n], n.id) == ns
  {
    WithoutIdAppend(ns, [n], n.id);
    WithoutIdMembers(ns, n.id);
    assert WithoutId([n], n.id) == [];
  }

  // ---------------------------------------------------------------------------
  // Peers

  /** A peer is online when its last handshake is at most this old. */
  const HandshakeTimeout := 120000

  datatype Status = Online | Offline

  /** `deriveStatus`: offline for the never-connected marker and for a date
      that does not parse; otherwise online exactly when the handshake is
      at most 120 s old (the boundary counts as online). */
  function DeriveStatus(lastHandshake: string, diff: Option<int>): (s: Status)
    ensures s == Online <==> lastHandshake != "0" && lastHandshake != "" && diff.Some? && diff.value <= HandshakeTimeout
  {
    if lastHandshake == "0" || lastHandshake == "" then Offline
    else if diff.Some? && diff.value <= HandshakeTimeout then Online
    else Offline
  }

  /** A listed peer with its derived status. */
  datatype PeerWithStatus = PeerWithStatus(peer: Peer, status: Status)

  /** The answer of an API call: data, an error text, or (for a malformed
      answer) neither. */
  datatype ApiResponse<T> = ApiResponse(data: Option<T>, error: Option<string>)

  /** Each peer with its status, given the current time and the parse of a
      handshake text into milliseconds. */
  function WithStatus(ps: seq<Peer>, now: int, parseTime: string -> Option<int>): (r: seq<PeerWithStatus>)
    ensures |r| == |ps|
    ensures forall i :: 0 <= i < |ps| ==>
      r[i].peer == ps[i] &&
      r[i].status == DeriveStatus(ps[i].lastHandshake,
                                  if parseTime(ps[i].lastHandshake).Some? then Some(now - parseTime(ps[i].lastHandshake).value) else None)
  {
    seq(|ps|, i requires 0 <= i < |ps| =>
      var t := parseTime(ps[i].lastHandshake);
      PeerWithStatus(ps[i], DeriveStatus(ps[i].lastHandshake, if t.Some? then Some(now - t.value) else None)))
  }

  /** The list without the peers carrying the id, the others in order. */
  function WithoutPeer(ps: seq<PeerWithStatus>, id: string): (r: seq<PeerWithStatus>)
    ensures |r| <= |ps|
    ensures forall p :: p in r <==> p in ps && p.peer.id != id
  {
    if ps == [] then []
    else
      var rest := WithoutPeer(ps[1..], id);
      assert forall p :: p in ps <==> p == ps[0] || p in ps[1..];
      if ps[0].peer.id == id then rest else [ps[0]] + rest
  }

  /** Dropping peers keeps the order: it distributes over concatenation. */
  lemma {:induction false} WithoutPeerAppend(a: seq<PeerWithStatus>, b: seq<PeerWithStatus>, id: string)
    ensures WithoutPeer(a + b, id) == WithoutPeer(a, id) + WithoutPeer(b, id)
    decreases |a|
  {
    if a != [] {
      var ab := a + b;
      assert ab != [] && ab[0] == a[0] && ab[1..] == a[1..] + b;
      WithoutPeerAppend(a[1..], b, id);
      var tail := WithoutPeer(a[1..], id) + WithoutPeer(b, id);
      assert WithoutPeer(ab, id) == if a[0].peer.id == id then tail else [a[0]] + tail;
    } else {
      assert a + b == b;
    }
  }

  class PeersStore {
    var peers: seq<PeerWithStatus>
    /** The notification store every message goes to. */
    const notices: NotificationStore

    constructor (notices: NotificationStore)
      ensures peers == [] && this.notices == notices
    {
      peers := [];
      this.notices := notices;
    }

    /** `load`: an error is reported and leaves the list as it was; data
        replaces the list, each peer with its derived status. */
    method Load(response: ApiResponse<seq<Peer>>, now: int, parseTime: string -> Option<int>, noticeId: string)
      modifies this, notices
      ensures response.error.Some? ==>
        peers == old(peers) &&
        notices.notifications == old(notices.notifications) +
          [Notification(noticeId, Failure, "Failed to load peers: " + response.error.value, Some(5000))] &&
        notices.timers == old(notices.timers) + [Timer(noticeId, 5000)]
      ensures response.error.None? ==> notices.notifications == old(notices.notifications) && notices.timers == old(notices.timers)
      ensures response.error.None? && response.data.Some? ==> peers == WithStatus(response.data.value, now, parseTime)
      ensures response.error.None? && response.data.None? ==> peers == old(peers)
    {
      if response.error.Some? {
        notices.Add(Failure, "Failed to load peers: " + response.error.value, Some(5000), noticeId);
        return;
      }
      if response.data.Some? {
        peers := WithStatus(response.data.value, now, parseTime);
      }
    }

    /** `remove`: an error is reported, answered `false` and leaves the
        list as it was; success is reported, drops every peer with the id
        and answers `true`. */
    method Remove(peerId: string, peerName: string, response: ApiResponse<()>, noticeId: string) returns (removed: bool)
      modifies this, notices
      ensures removed <==> response.error.None?
      ensures !removed ==>
        peers == old(peers) &&
        notices.notifications == old(notices.notifications) +
          [Notification(noticeId, Failure, "Failed to remove peer: " + response.error.value, Some(5000))] &&
        notices.timers == old(notices.timers) + [Timer(noticeId, 5000)]
      ensures removed ==>
        peers == WithoutPeer(old(peers), peerId) &&
        notices.notifications == old(notices.notifications) +
          [Notification(noticeId, Success, "Peer \"" + peerName + "\" removed successfully!", Some(3000))] &&
        notices.timers == old(notices.timers) + [Timer(noticeId, 3000)]
    {
      if response.error.Some? {
        notices.Add(Failure, "Failed to remove peer: " + response.error.value, Some(5000), noticeId);
        return false;
      }
      notices.Add(Success, "Peer \"" + peerName + "\" removed successfully!", Some(3000), noticeId);
      peers := WithoutPeer(peers, peerId);
      return true;
    }
  }
}
