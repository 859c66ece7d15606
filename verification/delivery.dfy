/** Names shared by the agency and the carrier: the offered delivery types,
    routing and binding keys, and the order message body. */
module DeliverySettings {
  import opened Strings

  const DeliveryTypes: seq<string> := ["People", "Cargo", "Satellite"]
  const ExchangeName: string := "exchange1"
  const ExitCommand: string := "exit"

  /** `DELIVERY_TYPES.contains(t)`: exact, case-sensitive membership. */
  predicate IsDeliveryType(t: string) {
    t in DeliveryTypes
  }

  lemma DeliveryTypesHaveNoColon(t: string)
    requires IsDeliveryType(t)
    ensures ':' !in t && t != ""
  {
  }

  /** Routing key of an order published by an agency. */
  function OrderRoutingKey(agency: string, t: string): string {
    agency + ".delivery." + t
  }

  /** Binding key of a carrier queue for one delivery type. */
  function DeliveryBindingKey(t: string): string {
    "*.delivery." + t
  }

  /** Binding key of an agency's confirmation queue. */
  function ConfirmationBindingKey(agency: string): string {
    "*.confirmation." + agency
  }

  /** Routing key of a carrier's confirmation to an agency. */
  function ConfirmationRoutingKey(carrier: string, agency: string): string {
    carrier + ".confirmation." + agency
  }

  /** `orderNo + ":" + agencyName + ":" + deliveryType`. */
  function OrderBody(orderNo: nat, agency: string, t: string): string {
    NatToString(orderNo) + ":" + agency + ":" + t
  }

  /** A topic binding key matches a routing key when both have the same
      number of `.`-separated words and each pattern word is `*` or equal
      to the key's word (the source uses no `#`). */
  predicate TopicMatches(bindingKey: string, routingKey: string) {
    var pattern := SplitAll(bindingKey, '.');
    var words := SplitAll(routingKey, '.');
    |pattern| == |words| && forall i :: 0 <= i < |pattern| ==> pattern[i] == "*" || pattern[i] == words[i]
  }

  /** The words of `a.middle.b` for `.`-free `a` and `b`. */
  lemma ThreeWords(a: string, middle: string, b: string)
    requires '.' !in a && '.' !in middle && '.' !in b
    ensures SplitAll(a + "." + middle + "." + b, '.') == [a, middle, b]
  {
    assert a + "." + middle + "." + b == a + ['.'] + (middle + ['.'] + b);
    SplitAtFirst(a, '.', middle + ['.'] + b);
    SplitAtFirst(middle, '.', b);
    SplitNoSep(b, '.');
  }

  /** The binding `*.middle.w` matches the key `x.middle.y` exactly when
      `w` is `y` or the wildcard itself. */
  lemma WildcardFirstWordMatches(x: string, middle: string, y: string, w: string)
    requires '.' !in x && '.' !in middle && '.' !in y && '.' !in w
    ensures TopicMatches("*" + "." + middle + "." + w, x + "." + middle + "." + y) <==> w == "*" || w == y
  {
    ThreeWords(x, middle, y);
    ThreeWords("*", middle, w);
    var pattern: seq<string> := ["*", middle, w];
    var words := [x, middle, y];
    if w == "*" || w == y {
      assert forall i :: 0 <= i < 3 ==> pattern[i] == "*" || pattern[i] == words[i];
    } else {
      assert !(pattern[2] == "*" || pattern[2] == words[2]);
    }
  }

  /** An order for type `t` reaches the carrier queue bound for type `u`
      exactly when `u` is `t` (or the wildcard itself). */
  lemma OrderReachesCarrier(agency: string, t: string, u: string)
    requires '.' !in agency && '.' !in t && '.' !in u
    ensures TopicMatches(DeliveryBindingKey(u), OrderRoutingKey(agency, t)) <==> u == "*" || u == t
  {
    assert DeliveryBindingKey(u) == "*" + "." + "delivery" + "." + u;
    assert OrderRoutingKey(agency, t) == agency + "." + "delivery" + "." + t;
    WildcardFirstWordMatches(agency, "delivery", t, u);
  }

  /** A carrier's confirmation addressed to agency `b` reaches the
      confirmation queue of agency `a` exactly when `a` is `b` (or `*`). */
  lemma ConfirmationReachesAgency(carrier: string, a: string, b: string)
    requires '.' !in carrier && '.' !in a && '.' !in b
    ensures TopicMatches(ConfirmationBindingKey(a), ConfirmationRoutingKey(carrier, b)) <==> a == "*" || a == b
  {
    assert ConfirmationBindingKey(a) == "*" + "." + "confirmation" + "." + a;
    assert ConfirmationRoutingKey(carrier, b) == carrier + "." + "confirmation" + "." + b;
    WildcardFirstWordMatches(carrier, "confirmation", b, a);
  }

  /** Each routing key is its binding key with the leading `*` word
      replaced by the sender's name. */
  lemma KeysAgree(name: string, other: string)
    ensures OrderRoutingKey(name, other) == name + DeliveryBindingKey(other)[1..]
    ensures ConfirmationRoutingKey(name, other) == name + ConfirmationBindingKey(other)[1..]
  {
  }
}

/** The agency's order loop. */
module Agency {
  import opened DeliverySettings

  datatype Publication = Publication(routingKey: string, body: string)

  /** What the agency has read after a prefix of its input lines: the valid
      delivery types it ordered, and whether it has seen `exit`. */
  datatype Intake = Intake(picks: seq<string>, exited: bool)

  function Read(inputs: seq<string>): (r: Intake)
    ensures |r.picks| <= |inputs|
  {
    if inputs == [] then Intake([], false)
    else
      var before := Read(inputs[..|inputs| - 1]);
      var line := inputs[|inputs| - 1];
      if before.exited then before
      else if line == ExitCommand then Intake(before.picks, true)
      else if IsDeliveryType(line) then Intake(before.picks + [line], false)
      else before
  }

  /** Once `exit` has been read, later lines change nothing. */
  lemma {:induction false} StaysExited(inputs: seq<string>, n: nat)
    requires n <= |inputs| && Read(inputs[..n]).exited
    ensures Read(inputs) == Read(inputs[..n])
  {
    if n < |inputs| {
      assert inputs[..|inputs| - 1][..n] == inputs[..n];
      StaysExited(inputs[..|inputs| - 1], n);
    } else {
      assert inputs[..n] == inputs;
    }
  }

  /** The loop ends early exactly when some line is `exit`. */
  lemma {:induction false} ExitedIffExitLine(inputs: seq<string>)
    ensures Read(inputs).exited <==> ExitCommand in inputs
  {
    if inputs != [] {
      var init := inputs[..|inputs| - 1];
      ExitedIffExitLine(init);
      assert inputs == init + [inputs[|inputs| - 1]];
    }
  }

  /** Only valid delivery types are ever ordered. */
  lemma {:induction false} PicksAreDeliveryTypes(inputs: seq<string>, k: nat)
    requires k < |Read(inputs).picks|
    ensures IsDeliveryType(Read(inputs).picks[k])
  {
    var init := inputs[..|inputs| - 1];
    if k < |Read(init).picks| {
      PicksAreDeliveryTypes(init, k);
    }
  }

  /** A line that is neither `exit` nor a delivery type is skipped: reading
      it changes nothing. */
  lemma SkipsUnknownLine(inputs: seq<string>, line: string)
    requires line != ExitCommand && !IsDeliveryType(line)
    ensures Read(inputs + [line]) == Read(inputs)
  {
    assert (inputs + [line])[..|inputs|] == inputs;
  }

  /** Before `exit`, a valid delivery type is ordered: it is appended to the
      picks, and the loop goes on. */
  lemma ValidLineOrdered(inputs: seq<string>, t: string)
    requires !Read(inputs).exited && IsDeliveryType(t)
    ensures Read(inputs + [t]).picks == Read(inputs).picks + [t]
    ensures !Read(inputs + [t]).exited
  {
    assert (inputs + [t])[..|inputs|] == inputs;
  }

  /** The orders published for a sequence of picked types: the k-th
      (from 0) carries order number k + 1. */
  function Orders(agencyName: string, picks: seq<string>): (r: seq<Publication>)
    ensures |r| == |picks|
  {
    if picks == [] then []
    else
      var t := picks[|picks| - 1];
      Orders(agencyName, picks[..|picks| - 1])
        + [Publication(OrderRoutingKey(agencyName, t), OrderBody(|picks|, agencyName, t))]
  }

  /** Order numbers are 1, 2, 3, ... in publication order, without gaps, and
      each order is routed by its own type. */
  lemma {:induction false} OrdersNumbered(agencyName: string, picks: seq<string>, k: nat)
    requires k < |picks|
    ensures Orders(agencyName, picks)[k] ==
              Publication(OrderRoutingKey(agencyName, picks[k]), OrderBody(k + 1, agencyName, picks[k]))
  {
    if k < |picks| - 1 {
      OrdersNumbered(agencyName, picks[..|picks| - 1], k);
    }
  }

  /** The `while (true)` loop of `main`: `exit` stops; an unknown type is
      skipped; a valid type publishes order `orderNo` and increments it.
      `exited` is false when input ran out first. */
  method OrderLoop(agencyName: string, inputs: seq<string>)
    returns (published: seq<Publication>, orderNo: nat, exited: bool)
    ensures published == Orders(agencyName, Read(inputs).picks)
    ensures orderNo == |published| + 1
    ensures exited == Read(inputs).exited
  {
    published, orderNo, exited := [], 1, false;
    ghost var picked: seq<string> := [];
    var i := 0;
    while i < |inputs|
      invariant 0 <= i <= |inputs|
      invariant Read(inputs[..i]) == Intake(picked, false)
      invariant published == Orders(agencyName, picked) && orderNo == |picked| + 1
    {
      assert inputs[..i + 1][..i] == inputs[..i];
      var deliveryType := inputs[i];
      i := i + 1;
      if deliveryType == ExitCommand {
        assert Read(inputs[..i]) == Intake(picked, true);
        exited := true;
        break;
      }
      if !IsDeliveryType(deliveryType) {
        continue;
      }
      published := published + [Publication(OrderRoutingKey(agencyName, deliveryType),
                                             OrderBody(orderNo, agencyName, deliveryType))];
      assert (picked + [deliveryType])[..|picked|] == picked;
      picked := picked + [deliveryType];
      orderNo := orderNo + 1;
    }
    if exited {
      StaysExited(inputs, i);
    } else {
      assert inputs[..i] == inputs;
    }
    assert Read(inputs).picks == picked;
  }
}

/** The carrier: picks two different delivery types, binds a queue to each,
    and confirms every order it receives. */
module Carrier {
  import opened Wrappers
  import opened Strings
  import opened DeliverySettings
  import Agency

  /** A line `inputDeliveryType` refuses: the type picked before, or an unknown type. */
  predicate Refused(already: Option<string>, t: string) {
    already == Some(t) || !IsDeliveryType(t)
  }

  /** The position of the first line not refused, if any. */
  function FirstPick(already: Option<string>, inputs: seq<string>): (r: Option<nat>)
    ensures r.Some? ==> r.value < |inputs| && !Refused(already, inputs[r.value])
    ensures r.Some? ==> forall k :: 0 <= k < r.value ==> Refused(already, inputs[k])
    ensures r.None? ==> forall k :: 0 <= k < |inputs| ==> Refused(already, inputs[k])
  {
    if inputs == [] then None
    else if !Refused(already, inputs[0]) then Some(0)
    else match FirstPick(already, inputs[1..])
      case None => None
      case Some(k) => Some(k + 1)
  }

  /** The two delivery types the carrier ends up with: the first line
      accepted, then the first later line accepted that differs from it. */
  function Choose(inputs: seq<string>): Option<(string, string)> {
    match FirstPick(None, inputs)
    case None => None
    case Some(i) =>
      match FirstPick(Some(inputs[i]), inputs[i + 1..])
      case None => None
      case Some(j) => Some((inputs[i], inputs[i + 1 + j]))
  }

  /** Two different valid types anywhere in the input are enough for the
      carrier to finish choosing. */
  lemma TwoDistinctTypesSuffice(inputs: seq<string>, a: nat, b: nat)
    requires a < b < |inputs|
    requires IsDeliveryType(inputs[a]) && IsDeliveryType(inputs[b]) && inputs[a] != inputs[b]
    ensures Choose(inputs).Some?
  {
    assert !Refused(None, inputs[a]);
    var i := FirstPick(None, inputs).value;
    var rest := inputs[i + 1..];
    var x := if inputs[i] != inputs[b] then b else a;
    assert i < x && !Refused(Some(inputs[i]), inputs[x]);
    assert rest[x - i - 1] == inputs[x];
  }

  /** `inputDeliveryType`: read lines until one is a valid type different
      from `already`.  `consumed` is the number of lines read; `None` means
      input ran out first. */
  method InputDeliveryType(already: Option<string>, inputs: seq<string>)
    returns (picked: Option<string>, consumed: nat)
    ensures consumed <= |inputs|
    ensures forall k :: 0 <= k < consumed - 1 ==> Refused(already, inputs[k])
    ensures picked.Some? ==> consumed >= 1 && picked.value == inputs[consumed - 1]
    ensures picked.Some? ==> IsDeliveryType(picked.value) && already != picked
    ensures picked.None? ==> consumed == |inputs| && forall k :: 0 <= k < |inputs| ==> Refused(already, inputs[k])
    ensures picked.Some? <==> FirstPick(already, inputs).Some?
    ensures picked.Some? ==> consumed == FirstPick(already, inputs).value + 1
  {
    picked, consumed := None, 0;
    while consumed < |inputs|
      invariant consumed <= |inputs|
      invariant forall k :: 0 <= k < consumed ==> Refused(already, inputs[k])
    {
      var deliveryType := inputs[consumed];
      consumed := consumed + 1;
      if already == Some(deliveryType) {
        // "You already picked this delivery type. Try again."
      } else if IsDeliveryType(deliveryType) {
        picked := Some(deliveryType);
        return;
      } else {
        // "Non-existing delivery type picked. Try again."
      }
    }
  }

  /** The set-up part of `main`: two picks and the binding key of each queue. */
  method ChooseDeliveryTypes(inputs: seq<string>) returns (picks: Option<(string, string)>, bindings: seq<string>)
    ensures picks.Some? ==> IsDeliveryType(picks.value.0) && IsDeliveryType(picks.value.1)
    ensures picks.Some? ==> picks.value.0 != picks.value.1
    ensures picks.Some? ==> bindings == [DeliveryBindingKey(picks.value.0), DeliveryBindingKey(picks.value.1)]
    ensures picks.None? ==> bindings == []
    ensures picks == Choose(inputs)
  {
    bindings := [];
    var first, used := InputDeliveryType(None, inputs);
    if first.None? {
      return None, [];
    }
    var second, _ := InputDeliveryType(first, inputs[used..]);
    if second.None? {
      return None, [];
    }
    picks := Some((first.value, second.value));
    bindings := [DeliveryBindingKey(first.value), DeliveryBindingKey(second.value)];
  }

  /** What `handleDelivery` does on the channel, in order. */
  datatype ChannelAction = Publish(routingKey: string, body: string) | Ack

  datatype DeliveryError = ArrayIndexOutOfBounds

  function Confirmation(orderNo: string): string {
    "Order " + orderNo + " confirmed."
  }

  /** `handleDelivery`: split the body on `:`, publish the confirmation to
      the ordering agency, then acknowledge.  A body with fewer than three
      fields fails before anything is published or acknowledged. */
  function HandleDelivery(carrierName: string, body: string): (r: Result<seq<ChannelAction>, DeliveryError>)
    ensures r.Ok? <==> |JavaSplit(body, ':')| >= 3
    ensures r.Ok? ==> var fields := JavaSplit(body, ':');
              r.value == [Publish(ConfirmationRoutingKey(carrierName, fields[1]), Confirmation(fields[0])), Ack]
  {
    var message := JavaSplit(body, ':');
    if |message| < 3 then Err(ArrayIndexOutOfBounds)
    else Ok([Publish(ConfirmationRoutingKey(carrierName, message[1]), Confirmation(message[0])), Ack])
  }

  /** The carrier recovers order number, agency and type from an agency's
      body when the agency name has no colon. */
  lemma ParsesAgencyBody(orderNo: nat, agency: string, t: string)
    requires ':' !in agency && IsDeliveryType(t)
    ensures JavaSplit(OrderBody(orderNo, agency, t), ':') == [NatToString(orderNo), agency, t]
  {
    DeliveryTypesHaveNoColon(t);
    var fields := [NatToString(orderNo), agency, t];
    assert Join(fields, ':') == OrderBody(orderNo, agency, t) by {
      assert Join(fields[2..], ':') == t;
      assert Join(fields[1..], ':') == agency + ":" + t;
    }
    JavaSplitJoin(fields, ':');
  }

  /** An agency's order is confirmed back to that agency with its order number. */
  lemma ConfirmsAgencyOrder(carrierName: string, orderNo: nat, agency: string, t: string)
    requires ':' !in agency && IsDeliveryType(t)
    ensures HandleDelivery(carrierName, OrderBody(orderNo, agency, t)) ==
              Ok([Publish(ConfirmationRoutingKey(carrierName, agency), Confirmation(NatToString(orderNo))), Ack])
  {
    ParsesAgencyBody(orderNo, agency, t);
  }

  /** A body without two colons is rejected with nothing published. */
  lemma ShortBodyRejected(carrierName: string, a: string, b: string)
    requires ':' !in a && ':' !in b
    ensures HandleDelivery(carrierName, a).Err?
    ensures HandleDelivery(carrierName, a + ":" + b).Err?
  {
    var s := a + ":" + b;
    assert s == a + [':'] + b && s[|a|] == ':';
    SplitAtFirst(a, ':', b);
    SplitNoSep(b, ':');
  }

  /** End to end: every order an agency publishes (for a name without a
      colon) is confirmed to that agency under its own order number. */
  lemma ConfirmsEveryPublishedOrder(carrierName: string, agencyName: string, inputs: seq<string>,
                                    published: seq<Agency.Publication>, k: nat)
    requires ':' !in agencyName
    requires published == Agency.Orders(agencyName, Agency.Read(inputs).picks)
    requires k < |published|
    ensures HandleDelivery(carrierName, published[k].body) ==
              Ok([Publish(ConfirmationRoutingKey(carrierName, agencyName), Confirmation(NatToString(k + 1))), Ack])
  {
    var t := Agency.Read(inputs).picks[k];
    Agency.PicksAreDeliveryTypes(inputs, k);
    Agency.OrdersNumbered(agencyName, Agency.Read(inputs).picks, k);
    ConfirmsAgencyOrder(carrierName, k + 1, agencyName, t);
  }
}
