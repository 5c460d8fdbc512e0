/**
 * Alert broadcasting (main.py): `send_alert` tries every subscriber in list
 * order and counts deliveries and failures, and `trigger_test_alert` picks the
 * alert template named by the command's first argument. The transport is an
 * oracle: `send(chatId)` says whether delivering to that chat succeeds.
 */
module Broadcast {
  import opened Wrappers
  import opened Text

  /** Deliveries that succeed among the attempts to `subscribers`, in list order. */
  function Delivered(subscribers: seq<int>, send: int -> bool): (n: nat)
    ensures n <= |subscribers|
  {
    if subscribers == [] then 0
    else
      var last := |subscribers| - 1;
      Delivered(subscribers[..last], send) + (if send(subscribers[last]) then 1 else 0)
  }

  /** Counting over a concatenation adds the counts of the two parts. */
  lemma {:induction false} DeliveredSplits(a: seq<int>, b: seq<int>, send: int -> bool)
    ensures Delivered(a + b, send) == Delivered(a, send) + Delivered(b, send)
    decreases |b|
  {
    if b == [] {
      assert a + b == a;
    } else {
      var last := |b| - 1;
      assert (a + b)[..|a + b| - 1] == a + b[..last];
      DeliveredSplits(a, b[..last], send);
    }
  }

  /** When the transport accepts every chat, every subscriber is counted as sent. */
  lemma {:induction false} AllAcceptedAllSent(subscribers: seq<int>, send: int -> bool)
    requires forall i :: 0 <= i < |subscribers| ==> send(subscribers[i])
    ensures Delivered(subscribers, send) == |subscribers|
    decreases |subscribers|
  {
    if subscribers != [] {
      AllAcceptedAllSent(subscribers[..|subscribers| - 1], send);
    }
  }

  /** When the transport refuses every chat, nothing is counted as sent. */
  lemma {:induction false} AllRefusedNoneSent(subscribers: seq<int>, send: int -> bool)
    requires forall i :: 0 <= i < |subscribers| ==> !send(subscribers[i])
    ensures Delivered(subscribers, send) == 0
    decreases |subscribers|
  {
    if subscribers != [] {
      AllRefusedNoneSent(subscribers[..|subscribers| - 1], send);
    }
  }

  /**
   * `send_alert`: one attempt per subscriber; a failure is counted and does
   * not stop the remaining attempts.
   */
  method SendAlert(subscribers: seq<int>, send: int -> bool) returns (sent: nat, failed: nat)
    ensures sent == Delivered(subscribers, send)
    ensures sent + failed == |subscribers|
    ensures subscribers == [] ==> sent == 0 && failed == 0
  {
    sent, failed := 0, 0;
    for i := 0 to |subscribers|
      invariant sent == Delivered(subscribers[..i], send)
      invariant sent + failed == i
    {
      assert subscribers[..i + 1][..i] == subscribers[..i];
      if send(subscribers[i]) {
        sent := sent + 1;
      } else {
        failed := failed + 1;
      }
    }
    assert subscribers[..|subscribers|] == subscribers;
  }

  /** The alert templates, in the order of the alert table. */
  datatype AlertKind = WeedAlert | DiseaseAlert | HealthAlert | FertilizerAlert

  const AlertKinds: seq<AlertKind> := [WeedAlert, DiseaseAlert, HealthAlert, FertilizerAlert]

  /** The key each template is stored under. */
  function AlertName(k: AlertKind): string {
    match k
    case WeedAlert => "weed"
    case DiseaseAlert => "disease"
    case HealthAlert => "health"
    case FertilizerAlert => "fertilizer"
  }

  /** Dictionary lookup of an alert by its exact key. */
  function AlertNamed(name: string): (r: Option<AlertKind>)
    ensures r.Some? ==> AlertName(r.value) == name
    ensures r.None? ==> forall k :: AlertName(k) != name
  {
    if name == "weed" then Some(WeedAlert)
    else if name == "disease" then Some(DiseaseAlert)
    else if name == "health" then Some(HealthAlert)
    else if name == "fertilizer" then Some(FertilizerAlert)
    else None
  }

  /** Every template is found again under its own key. */
  lemma AlertNameRoundTrip(k: AlertKind)
    ensures AlertNamed(AlertName(k)) == Some(k)
  {
  }

  /**
   * The template `trigger_test_alert` broadcasts: the weed alert when no
   * argument is given, otherwise the one stored under the lower-cased first
   * argument, and none for an unknown key.
   */
  function SelectAlert(args: seq<string>): (r: Option<AlertKind>)
    ensures args == [] ==> r == Some(WeedAlert)
    ensures args != [] && r.Some? ==> AlertName(r.value) == Lower(args[0])
    ensures args != [] && r.None? ==> forall k :: AlertName(k) != Lower(args[0])
  {
    if |args| > 0 then AlertNamed(Lower(args[0])) else Some(WeedAlert)
  }

  /** Any spelling of a key in capitals selects that key's template. */
  lemma SelectIgnoresCase(arg: string, rest: seq<string>, k: AlertKind)
    requires Lower(arg) == AlertName(k)
    ensures SelectAlert([arg] + rest) == Some(k)
  {
    AlertNameRoundTrip(k);
  }

  /** The reply `trigger_test_alert` gives the requesting chat. */
  datatype TestAlertReply =
    | Broadcast(kind: AlertKind, requested: bool, sent: nat, failed: nat, reported: nat)
    | UnknownType(available: seq<string>)

  /**
   * `trigger_test_alert`: broadcast the selected template to the current
   * subscribers and report their number, or list the valid keys.
   */
  method TriggerTestAlert(args: seq<string>, subscribers: seq<int>, send: int -> bool)
    returns (reply: TestAlertReply)
    ensures reply.UnknownType? <==> SelectAlert(args).None?
    ensures reply.UnknownType? ==> reply.available == ["weed", "disease", "health", "fertilizer"]
    ensures reply.Broadcast? ==>
      && reply.kind == SelectAlert(args).value
      && reply.requested == (args != [])
      && reply.sent == Delivered(subscribers, send)
      && reply.sent + reply.failed == |subscribers|
      && reply.reported == |subscribers|
  {
    if |args| > 0 {
      var alertType := Lower(args[0]);
      var kind := AlertNamed(alertType);
      if kind.Some? {
        var sent, failed := SendAlert(subscribers, send);
        reply := Broadcast(kind.value, true, sent, failed, |subscribers|);
      } else {
        var available := seq(|AlertKinds|, i requires 0 <= i < |AlertKinds| => AlertName(AlertKinds[i]));
        reply := UnknownType(available);
      }
    } else {
      var sent, failed := SendAlert(subscribers, send);
      reply := Broadcast(WeedAlert, false, sent, failed, |subscribers|);
    }
  }
}
