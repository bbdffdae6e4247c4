/**
 * Properties of the retry ladder of the `amqp` service package: the topology
 * `ensureChannel` declares, what one failed delivery leads to, the round trip
 * through a delay queue and the ready queue, and the whole walk of a message
 * that keeps failing.
 */
module AmqpLadder {
  import opened Wrappers
  import Strconv
  import opened Amqp

  // ---------------------------------------------------------------------------
  // Counting actions

  lemma {:induction false} CountsAppend(a: seq<Action>, b: seq<Action>)
    ensures CountAcks(a + b) == CountAcks(a) + CountAcks(b)
    ensures CountPublishes(a + b) == CountPublishes(a) + CountPublishes(b)
  {
    if b == [] {
      assert a + b == a;
    } else {
      assert (a + b)[..|a + b| - 1] == a + b[..|b| - 1];
      CountsAppend(a, b[..|b| - 1]);
    }
  }

  // ---------------------------------------------------------------------------
  // Topology

  /**
   * `ensureChannel` declares the ready queue, the retry exchange and their
   * binding, then one delay queue per tier in ladder order; every delay queue
   * dead-letters, after its tier's TTL in milliseconds, to the exchange and
   * routing key the ready queue is bound with.
   */
  lemma TopologyShape(cfg: Config)
    ensures |TopologyPlan(cfg)| == 3 + |QueueTtls|
    ensures TopologyPlan(cfg)[0] == QueueDeclare(cfg.readyQueue, map[])
    ensures TopologyPlan(cfg)[2] == QueueBind(cfg.readyQueue, cfg.retryRoutingKey, cfg.retryExchange)
    ensures forall i :: 0 <= i < |QueueTtls| ==>
              TopologyPlan(cfg)[3 + i].QueueDeclare? &&
              TopologyPlan(cfg)[3 + i].queue == DelayQueueName(cfg, QueueTtls[i]) &&
              TopologyPlan(cfg)[3 + i].args["x-dead-letter-exchange"] == Str(cfg.retryExchange) &&
              TopologyPlan(cfg)[3 + i].args["x-dead-letter-routing-key"] == Str(cfg.retryRoutingKey) &&
              TopologyPlan(cfg)[3 + i].args["x-message-ttl"] == Int(QueueTtls[i] * 1000)
  {
    var plan := TopologyPlan(cfg);
    forall i | 0 <= i < |QueueTtls|
      ensures plan[3 + i] == DelayQueueDecl(cfg, QueueTtls[i])
    {
      assert plan[3 + i] == LadderDecls(cfg, QueueTtls)[i];
    }
  }

  /** The delay-queue name ends in the tier's TTL written in exactly four digits, which read back as the TTL. */
  lemma DelayQueueNameParses(cfg: Config, i: nat)
    requires i < |QueueTtls|
    ensures var name := DelayQueueName(cfg, QueueTtls[i]);
            var digits := name[|cfg.retryQueueBase| + 1..];
            name == cfg.retryQueueBase + "-" + digits && |digits| == 4 &&
            Strconv.Atoi(digits) == Strconv.AtoiResult(QueueTtls[i], Strconv.NoError)
  {
    var ttl := QueueTtls[i];
    assert ttl < 10000 == Strconv.Pow10(4);
    Strconv.FormatPaddedValue(ttl, 4);
    Strconv.AtoiFormatPadded(ttl, 4);
    var name := DelayQueueName(cfg, ttl);
    assert name[|cfg.retryQueueBase| + 1..] == Strconv.FormatPadded(ttl, 4);
  }

  /** Different TTLs give different delay-queue names. */
  lemma DelayQueueNameInjective(cfg: Config, a: nat, b: nat)
    requires DelayQueueName(cfg, a) == DelayQueueName(cfg, b)
    ensures a == b
  {
    var k := |cfg.retryQueueBase| + 1;
    assert DelayQueueName(cfg, a)[k..] == Strconv.FormatPadded(a, 4);
    assert DelayQueueName(cfg, b)[k..] == Strconv.FormatPadded(b, 4);
    Strconv.FormatPaddedInjective(a, b, 4);
  }

  /** No two tiers share a delay queue. */
  lemma DelayQueueNamesDistinct(cfg: Config, i: nat, j: nat)
    requires i < |QueueTtls| && j < |QueueTtls| && i != j
    ensures DelayQueueName(cfg, QueueTtls[i]) != DelayQueueName(cfg, QueueTtls[j])
  {
    assert QueueTtls[i] != QueueTtls[j];
    if DelayQueueName(cfg, QueueTtls[i]) == DelayQueueName(cfg, QueueTtls[j]) {
      DelayQueueNameInjective(cfg, QueueTtls[i], QueueTtls[j]);
    }
  }

  lemma PaddedTtls()
    ensures Strconv.FormatPadded(1, 4) == "0001" && Strconv.FormatPadded(5, 4) == "0005"
    ensures Strconv.FormatPadded(300, 4) == "0300" && Strconv.FormatPadded(600, 4) == "0600"
  {
    assert Strconv.FormatPadded(1, 4) == "0001";
    assert Strconv.FormatPadded(5, 4) == "0005";
    assert Strconv.NatDigits(300) == "300";
    assert Strconv.NatDigits(600) == "600";
  }

  /** The delay queues under the default names; the package's tests purge the first, second and sixth. */
  lemma DefaultDelayQueueNames()
    ensures var cfg := ConfigFromEnv(map[]);
            DelayQueueName(cfg, QueueTtls[0]) == "amqp.retry.waiting-0001" &&
            DelayQueueName(cfg, QueueTtls[1]) == "amqp.retry.waiting-0005" &&
            DelayQueueName(cfg, QueueTtls[5]) == "amqp.retry.waiting-0300" &&
            DelayQueueName(cfg, QueueTtls[6]) == "amqp.retry.waiting-0600"
  {
    PaddedTtls();
    var cfg := ConfigFromEnv(map[]);
    assert cfg.retryQueueBase == "amqp.retry.waiting";
  }

  // ---------------------------------------------------------------------------
  // publishRetry and the return hop

  /**
   * The headers `publishRetry` sends: the origin recorded, the count one higher
   * (as `Atoi` reads it back), every other header kept.
   */
  lemma RetryHeadersSpec(d: Delivery, n: nat)
    requires n < Strconv.MaxInt64
    ensures var h := RetryHeaders(d, n);
            h.Keys == d.headers.Keys + {"_exchangeName", "_routingKey", "_retryNumber"} &&
            h["_exchangeName"] == Str(d.exchange) && h["_routingKey"] == Str(d.routingKey) &&
            (forall k :: k in d.headers && k != "_exchangeName" && k != "_routingKey" && k != "_retryNumber" ==>
               h[k] == d.headers[k])
    ensures RetryHeaderIsString(RetryHeaders(d, n)) && RetryNumber(RetryHeaders(d, n)) == n + 1
  {
    RetryHeadersKept(d, n);
    RetryCountHeader(d, n);
  }

  lemma RetryHeadersKept(d: Delivery, n: nat)
    ensures var h := RetryHeaders(d, n);
            h.Keys == d.headers.Keys + {"_exchangeName", "_routingKey", "_retryNumber"} &&
            h["_exchangeName"] == Str(d.exchange) && h["_routingKey"] == Str(d.routingKey) &&
            (forall k :: k in d.headers && k != "_exchangeName" && k != "_routingKey" && k != "_retryNumber" ==>
               h[k] == d.headers[k])
  {
    var h1 := d.headers["_exchangeName" := Str(d.exchange)];
    var h2 := h1["_routingKey" := Str(d.routingKey)];
    var h := h2["_retryNumber" := Str(Strconv.Itoa(n + 1))];
    assert RetryHeaders(d, n) == h;
    assert h1.Keys == d.headers.Keys + {"_exchangeName"};
    assert h2.Keys == h1.Keys + {"_routingKey"};
    assert h.Keys == h2.Keys + {"_retryNumber"};
  }

  lemma RetryCountHeader(d: Delivery, n: nat)
    requires n < Strconv.MaxInt64
    ensures RetryHeaderIsString(RetryHeaders(d, n)) && RetryNumber(RetryHeaders(d, n)) == n + 1
  {
    var h := RetryHeaders(d, n);
    assert h["_retryNumber"] == Str(Strconv.Itoa(n + 1));
    Strconv.AtoiItoa(n + 1);
  }

  /**
   * `publishRetry`: nothing is published exactly when the count has reached the
   * end of the ladder. Otherwise one message goes through the default exchange
   * to the delay queue of the message's tier (declared by `ensureChannel`, see
   * `TopologyShape`), with the body unchanged and the headers of `RetryHeadersSpec`.
   */
  lemma RetryPlanSpec(cfg: Config, d: Delivery)
    requires CanPublishRetry(d)
    ensures RetryPlan(cfg, d).None? <==> RetryNumber(d.headers) >= |QueueTtls|
    ensures RetryPlan(cfg, d).Some? ==>
              var n := RetryNumber(d.headers);
              var a := RetryPlan(cfg, d).value;
              a.Publish? && a.exchange == "" && a.key == DelayQueueName(cfg, QueueTtls[n]) &&
              a.msg == Publishing(ContentTypeJson, d.body, RetryHeaders(d, n)) &&
              RetryHeaderIsString(a.msg.headers) && RetryNumber(a.msg.headers) == n + 1
  {
    var n := RetryNumber(d.headers);
    if n < |QueueTtls| {
      RetryHeadersSpec(d, n);
    }
  }

  /**
   * The return hop drops exactly the messages past the end of the ladder and
   * republishes any other, body and headers as received, to the exchange and
   * routing key its headers record.
   */
  lemma ReturnPlanSpec(d: Delivery)
    requires CanReturn(d.headers)
    ensures ReturnPlan(d).None? <==> RetryNumber(d.headers) >= |QueueTtls|
    ensures ReturnPlan(d).Some? ==>
              ReturnPlan(d).value == Action.Publish(d.headers["_exchangeName"].s, d.headers["_routingKey"].s,
                                                    Publishing(ContentTypeJson, d.body, d.headers))
  {
  }

  /**
   * The message a delay queue dead-letters when its TTL expires: the broker
   * re-routes it through the queue's dead-letter exchange with the queue's
   * dead-letter routing key, which the ready queue is bound with.
   */
  function DeadLetter(cfg: Config, p: Publishing, tag: nat): (d: Delivery)
    ensures d.body == p.body && d.headers == p.headers
    ensures d.exchange == cfg.retryExchange && d.routingKey == cfg.retryRoutingKey
  {
    Delivery(p.body, p.headers, cfg.retryExchange, cfg.retryRoutingKey, tag)
  }

  /**
   * Round trip: a message sent up the ladder comes back from the ready queue to
   * the exchange and routing key it failed on, with its body and its count one
   * higher; only a message that has just been sent to the last tier is dropped
   * there instead.
   */
  lemma RetryThenReturn(cfg: Config, d: Delivery, tag: nat)
    requires CanPublishRetry(d) && RetryNumber(d.headers) < |QueueTtls|
    ensures RetryPlan(cfg, d).Some? && RetryPlan(cfg, d).value.Publish?
    ensures var p := RetryPlan(cfg, d).value.msg;
            var back := DeadLetter(cfg, p, tag);
            CanReturn(back.headers) && RetryNumber(back.headers) == RetryNumber(d.headers) + 1 &&
            (RetryNumber(d.headers) + 1 < |QueueTtls| ==>
               ReturnPlan(back) == Some(Action.Publish(d.exchange, d.routingKey, Publishing(ContentTypeJson, d.body, p.headers)))) &&
            (RetryNumber(d.headers) + 1 == |QueueTtls| ==> ReturnPlan(back) == None)
  {
    RetryPlanSpec(cfg, d);
  }

  /**
   * The message as its original queue receives it again after one failure:
   * retried, dead-lettered and returned; `None` when it is dropped on the way.
   */
  function Redelivery(cfg: Config, d: Delivery): (r: Option<Delivery>)
    requires CanPublishRetry(d)
    ensures r.Some? ==> r.value.body == d.body && r.value.exchange == d.exchange && r.value.routingKey == d.routingKey
  {
    if RetryNumber(d.headers) >= |QueueTtls| then None
    else
      RetryThenReturn(cfg, d, d.tag);
      var back := DeadLetter(cfg, RetryPlan(cfg, d).value.msg, d.tag);
      match ReturnPlan(back)
      case None => None
      case Some(a) => Some(Delivery(a.msg.body, a.msg.headers, a.exchange, a.key, d.tag))
  }

  /**
   * A message `d` as it arrives on its queue after `m` failed attempts: its
   * body and origin, and the headers `publishRetry` wrote at the last failure.
   */
  function Returned(d: Delivery, m: nat): Delivery {
    if m == 0 then d else Delivery(d.body, RetryHeaders(d, m - 1), d.exchange, d.routingKey, d.tag)
  }

  /** Writing the retry headers again overwrites the three keys and leaves the rest as they first were. */
  lemma RetryHeadersTwice(d: Delivery, m: nat)
    ensures RetryHeaders(Returned(d, m + 1), m + 1) == RetryHeaders(d, m + 1)
  {
  }

  /**
   * A new message whose handler keeps failing walks the whole ladder: after
   * `m` failures it carries count `m`, its `m`-th failure sends it to the delay
   * queue of tier `m`, and it comes back as the message after `m + 1`
   * failures; after the failure at the last tier it is dropped.
   */
  lemma LadderStep(cfg: Config, d: Delivery, m: nat)
    requires CanPublishRetry(d) && RetryNumber(d.headers) == 0 && m < |QueueTtls|
    ensures CanPublishRetry(Returned(d, m)) && RetryNumber(Returned(d, m).headers) == m
    ensures RetryPlan(cfg, Returned(d, m)).Some? &&
            RetryPlan(cfg, Returned(d, m)).value.key == DelayQueueName(cfg, QueueTtls[m])
    ensures m + 1 < |QueueTtls| ==> Redelivery(cfg, Returned(d, m)) == Some(Returned(d, m + 1))
    ensures m + 1 == |QueueTtls| ==> Redelivery(cfg, Returned(d, m)) == None
  {
    var x := Returned(d, m);
    if m > 0 {
      RetryHeadersSpec(d, m - 1);
    }
    RetryThenReturn(cfg, x, x.tag);
    if m > 0 {
      RetryHeadersTwice(d, m - 1);
    }
  }

  // ---------------------------------------------------------------------------
  // One turn of the consumer loop

  /**
   * A delivery handled without a panic is acked exactly once, as the last call
   * for it, and one that does not decode gets nothing else; a delivery whose
   * handling panics is never acked.
   */
  lemma DeliveryAckedOnce(cfg: Config, b: Binding, d: Delivery, decodeOk: bool, handlerOk: bool, publishOk: bool)
    ensures var acts := DeliveryActions(cfg, b, d, decodeOk, handlerOk, publishOk);
            CountAcks(acts) <= 1 &&
            (CountAcks(acts) == 1 <==> DeliverySafe(b, d, decodeOk, handlerOk, publishOk)) &&
            (DeliverySafe(b, d, decodeOk, handlerOk, publishOk) ==> |acts| >= 1 && acts[|acts| - 1] == Ack(d.tag)) &&
            (!decodeOk ==> acts == [Ack(d.tag)])
  {
    var acts := DeliveryActions(cfg, b, d, decodeOk, handlerOk, publishOk);
    if !DeliverySafe(b, d, decodeOk, handlerOk, publishOk) {
      PanickedActions(cfg, b, d, handlerOk, publishOk);
      NoAcks(acts);
    } else if decodeOk {
      DecodedActions(cfg, b, d, handlerOk, publishOk);
      AckedLast(acts[..|acts| - 1], d.tag);
    }
  }

  /** A delivery whose handling panics gets at most the return hop's publish, and no ack. */
  lemma PanickedActions(cfg: Config, b: Binding, d: Delivery, handlerOk: bool, publishOk: bool)
    requires !DeliverySafe(b, d, true, handlerOk, publishOk)
    ensures var acts := DeliveryActions(cfg, b, d, true, handlerOk, publishOk);
            |acts| <= 1 && forall a: Action | a in acts :: a.Publish?
  {
    if b.handler.ReturnHop? && CanReturn(d.headers) {
      ReturnPlanSpec(d);
    }
  }

  /** A decoded delivery gets publishes only (the handler's and the retry), then its ack. */
  lemma DecodedActions(cfg: Config, b: Binding, d: Delivery, handlerOk: bool, publishOk: bool)
    requires DeliverySafe(b, d, true, handlerOk, publishOk)
    ensures var acts := DeliveryActions(cfg, b, d, true, handlerOk, publishOk);
            |acts| >= 1 && acts == acts[..|acts| - 1] + [Ack(d.tag)] &&
            forall a: Action | a in acts[..|acts| - 1] :: a.Publish?
  {
    var h := HandlerActions(b, d);
    var fails := HandlerFails(b, d, handlerOk, publishOk) && b.shouldRetry;
    var retry := if fails then AsSeq(RetryPlan(cfg, d)) else [];
    assert forall a: Action | a in h :: a.Publish?;
    assert forall a: Action | a in retry :: a.Publish?;
    var pubs := h + retry;
    assert DeliveryActions(cfg, b, d, true, handlerOk, publishOk) == pubs + [Ack(d.tag)];
    assert (pubs + [Ack(d.tag)])[..|pubs|] == pubs;
  }

  /** Publishes followed by one ack: the ack is last and is the only one. */
  lemma AckedLast(pubs: seq<Action>, tag: nat)
    requires forall a: Action | a in pubs :: a.Publish?
    ensures var acts := pubs + [Ack(tag)];
            acts[|acts| - 1] == Ack(tag) && CountAcks(acts) == 1
  {
    CountsAppend(pubs, [Ack(tag)]);
    NoAcks(pubs);
    assert [Ack(tag)][..0] == [];
  }

  lemma {:induction false} NoAcks(pubs: seq<Action>)
    requires forall a: Action | a in pubs :: a.Publish?
    ensures CountAcks(pubs) == 0
  {
    if pubs != [] {
      var init := pubs[..|pubs| - 1];
      assert forall a: Action | a in init :: a in pubs;
      NoAcks(init);
      assert pubs[|pubs| - 1] in pubs;
    }
  }

  /**
   * A user handler's delivery is published anywhere at most once, and exactly
   * when it decoded, the handler failed, the binding retries and the count is a
   * string below the end of the ladder; that publish is the retry, just before
   * the ack. Without a publish the delivery is only acked, unless the retry
   * panicked (a count that is not a string, or a negative one), in which case
   * nothing at all is done for it.
   */
  lemma UserHandlerOutcome(cfg: Config, b: Binding, d: Delivery, decodeOk: bool, handlerOk: bool, publishOk: bool)
    requires b.handler.UserHandler?
    ensures var acts := DeliveryActions(cfg, b, d, decodeOk, handlerOk, publishOk);
            CountPublishes(acts) <= 1 &&
            (CountPublishes(acts) == 1 <==>
               decodeOk && !handlerOk && b.shouldRetry && CanPublishRetry(d) && RetryNumber(d.headers) < |QueueTtls|) &&
            (CountPublishes(acts) == 1 ==> acts == [RetryPlan(cfg, d).value, Ack(d.tag)]) &&
            (CountPublishes(acts) == 0 ==>
               acts == if DeliverySafe(b, d, decodeOk, handlerOk, publishOk) then [Ack(d.tag)] else []) &&
            (!DeliverySafe(b, d, decodeOk, handlerOk, publishOk) <==>
               decodeOk && !handlerOk && b.shouldRetry && !CanPublishRetry(d))
  {
    UserHandlerActions(cfg, b, d, decodeOk, handlerOk, publishOk);
    if decodeOk && !handlerOk && b.shouldRetry && CanPublishRetry(d) {
      RetryPlanSpec(cfg, d);
      if RetryPlan(cfg, d).Some? {
        PublishThenAck(RetryPlan(cfg, d).value, d.tag);
      }
    }
  }

  /** What the consumer loop does for a user handler's delivery, case by case. */
  lemma UserHandlerActions(cfg: Config, b: Binding, d: Delivery, decodeOk: bool, handlerOk: bool, publishOk: bool)
    requires b.handler.UserHandler?
    ensures DeliveryActions(cfg, b, d, decodeOk, handlerOk, publishOk) ==
            if !(decodeOk && !handlerOk && b.shouldRetry) then [Ack(d.tag)]
            else if !CanPublishRetry(d) then []
            else AsSeq(RetryPlan(cfg, d)) + [Ack(d.tag)]
  {
  }

  /** A publish followed by an ack counts one publish and one ack. */
  lemma PublishThenAck(p: Action, tag: nat)
    requires p.Publish?
    ensures CountPublishes([p, Ack(tag)]) == 1 && CountAcks([p, Ack(tag)]) == 1
  {
    var acts := [p, Ack(tag)];
    assert acts[..1] == [p] && [p][..0] == [];
    assert CountPublishes([p]) == 1 && CountAcks([p]) == 0;
  }

  /**
   * On the ready queue the return hop's delivery is never sent up the ladder,
   * whether or not its republish succeeds: it is republished exactly when it
   * decoded, its headers pass the hop's type assertions and its count is below
   * the end of the ladder. A decoded delivery whose headers fail them panics
   * and gets nothing, not even its ack.
   */
  lemma ReturnHopOutcome(cfg: Config, b: Binding, d: Delivery, decodeOk: bool, publishOk: bool)
    requires IsRetryConsumer(cfg, b) && !b.shouldRetry
    ensures var acts := DeliveryActions(cfg, b, d, decodeOk, true, publishOk);
            acts == DeliveryActions(cfg, b, d, decodeOk, true, true) &&
            CountPublishes(acts) <= 1 &&
            (CountPublishes(acts) == 1 <==> decodeOk && CanReturn(d.headers) && RetryNumber(d.headers) < |QueueTtls|) &&
            (CountPublishes(acts) == 1 ==> acts == [ReturnPlan(d).value, Ack(d.tag)]) &&
            (decodeOk && !CanReturn(d.headers) ==> acts == []) &&
            (!DeliverySafe(b, d, decodeOk, true, publishOk) <==> decodeOk && !CanReturn(d.headers))
  {
    if decodeOk && CanReturn(d.headers) {
      ReturnPlanSpec(d);
      if ReturnPlan(d).Some? {
        var p := [ReturnPlan(d).value];
        assert DeliveryActions(cfg, b, d, decodeOk, true, publishOk) == p + [] + [Ack(d.tag)] == p + [Ack(d.tag)];
        CountsAppend(p, [Ack(d.tag)]);
        assert p[..0] == [] && [Ack(d.tag)][..0] == [];
      }
    }
  }

  // ---------------------------------------------------------------------------
  // Consumer tags and message counts

  /** Different counter values give different tags. */
  lemma ConsumerTagInjective(a: nat, b: nat)
    requires ConsumerTag(a) == ConsumerTag(b)
    ensures a == b
  {
    assert ConsumerTag(a)[5..] == Strconv.Itoa(a);
    assert ConsumerTag(b)[5..] == Strconv.Itoa(b);
    Strconv.ItoaInjective(a, b);
  }

  /** While the counter has not wrapped, no two consumers share a tag. */
  lemma ConsumerTagsDistinct(cfg: Config, bs: seq<Binding>, i: nat, j: nat)
    requires BindingRules(cfg, bs) && |bs| < Uint64Modulus
    requires i < j < |bs|
    ensures bs[i].consumerTag != bs[j].consumerTag
  {
    var ti, tj := bs[i].consumerTag, bs[j].consumerTag;
    assert ti == ConsumerTag((i + 1) % Uint64Modulus);
    assert tj == ConsumerTag((j + 1) % Uint64Modulus);
    BelowModulus(i + 1);
    BelowModulus(j + 1);
    if ti == tj {
      ConsumerTagInjective(i + 1, j + 1);
    }
  }

  lemma BelowModulus(n: nat)
    requires n < Uint64Modulus
    ensures n % Uint64Modulus == n
  {
  }

  /** Counting queue by queue: the total over two lists of names is the sum of their totals. */
  lemma {:induction false} SumMessagesAppend(a: seq<string>, b: seq<string>, counts: map<string, nat>)
    ensures SumMessages(a + b, counts) == SumMessages(a, counts) + SumMessages(b, counts)
  {
    if b == [] {
      assert a + b == a;
    } else {
      assert (a + b)[..|a + b| - 1] == a + b[..|b| - 1];
      SumMessagesAppend(a, b[..|b| - 1], counts);
    }
  }

  /** A total is at least the count of every queue named in it, and queues the broker does not report add nothing. */
  lemma {:induction false} SumMessagesBounds(names: seq<string>, counts: map<string, nat>)
    ensures forall i :: 0 <= i < |names| && names[i] in counts ==> SumMessages(names, counts) >= counts[names[i]]
    ensures (forall i :: 0 <= i < |names| ==> names[i] !in counts) ==> SumMessages(names, counts) == 0
  {
    if names != [] {
      var init := names[..|names| - 1];
      SumMessagesBounds(init, counts);
      assert forall i :: 0 <= i < |init| ==> init[i] == names[i];
    }
  }

  // ---------------------------------------------------------------------------
  // The package's own scenarios, under the default names

  /** The consumer the package's tests register: queue and routing key `test.mctest` on exchange `test`. */
  const TestBinding := Binding("test.mctest", "test", "test.mctest", "ctag-1", UserHandler, true)

  function TestDelivery(body: Bytes, headers: Table): Delivery {
    Delivery(body, headers, "test", "test.mctest", 1)
  }

  /** A body that is not JSON is acked and nothing is published. */
  lemma BadJsonIsAcked(body: Bytes)
    ensures DeliveryActions(ConfigFromEnv(map[]), TestBinding, TestDelivery(body, map[]), false, true, true) == [Ack(1)]
  {
  }

  /** A failing handler on a new message sends it to the first delay queue with count 1. */
  lemma FirstFailureRetries(body: Bytes)
    ensures DeliveryActions(ConfigFromEnv(map[]), TestBinding, TestDelivery(body, map[]), true, false, true) ==
            [Action.Publish("", "amqp.retry.waiting-0001",
                            Publishing(ContentTypeJson, body,
                                       map["_exchangeName" := Str("test"), "_routingKey" := Str("test.mctest"),
                                           "_retryNumber" := Str("1")])),
             Ack(1)]
  {
    var cfg, d := ConfigFromEnv(map[]), TestDelivery(body, map[]);
    DefaultDelayQueueNames();
    assert RetryNumber(d.headers) == 0;
    assert Strconv.Itoa(1) == "1";
    assert RetryPlan(cfg, d) == Some(Action.Publish("", "amqp.retry.waiting-0001", Publishing(ContentTypeJson, body, RetryHeaders(d, 0))));
  }

  /** A failing handler on a message with count 5 sends it to the 300-second queue with count 6. */
  lemma SixthFailureRetries(body: Bytes)
    ensures var h := map["_retryNumber" := Str("5")];
            DeliveryActions(ConfigFromEnv(map[]), TestBinding, TestDelivery(body, h), true, false, true) ==
            [Action.Publish("", "amqp.retry.waiting-0300",
                            Publishing(ContentTypeJson, body,
                                       h["_exchangeName" := Str("test")]["_routingKey" := Str("test.mctest")]
                                        ["_retryNumber" := Str("6")])),
             Ack(1)]
  {
    var h := map["_retryNumber" := Str("5")];
    var cfg, d := ConfigFromEnv(map[]), TestDelivery(body, h);
    DefaultDelayQueueNames();
    Strconv.AtoiItoa(5);
    assert Strconv.Itoa(5) == "5" && Strconv.Itoa(6) == "6";
    assert RetryNumber(d.headers) == 5;
    assert RetryPlan(cfg, d) == Some(Action.Publish("", "amqp.retry.waiting-0300", Publishing(ContentTypeJson, body, RetryHeaders(d, 5))));
  }

  /** A failing handler on a message with count 7 only acks it: the ladder has ended. */
  lemma LadderEndIsAcked(body: Bytes)
    ensures DeliveryActions(ConfigFromEnv(map[]), TestBinding, TestDelivery(body, map["_retryNumber" := Str("7")]), true, false, true) ==
            [Ack(1)]
  {
    Strconv.AtoiItoa(7);
    assert Strconv.Itoa(7) == "7";
  }

  /** The retry consumer republishes a returned message to the exchange and routing key its headers name. */
  lemma ReturnHopExample(body: Bytes)
    ensures var h := map["_retryNumber" := Str("1"), "_exchangeName" := Str("test"), "_routingKey" := Str("test.mctest")];
            var cfg := ConfigFromEnv(map[]);
            var b := Binding(cfg.readyQueue, cfg.retryExchange, cfg.retryRoutingKey, "ctag-2", ReturnHop, false);
            DeliveryActions(cfg, b, Delivery(body, h, "", cfg.readyQueue, 2), true, true, true) ==
            [Action.Publish("test", "test.mctest", Publishing(ContentTypeJson, body, h)), Ack(2)]
  {
    Strconv.AtoiItoa(1);
    assert Strconv.Itoa(1) == "1";
  }

  /**
   * Three deliveries whose handling panics, so that nothing is published and
   * nothing acked: a failing handler on a count that is not a string, or on
   * the count "-1"; and the return hop on a message without a count.
   */
  lemma PanickingDeliveries(body: Bytes)
    ensures var cfg, h := ConfigFromEnv(map[]), map["_retryNumber" := Str("-1")];
            !DeliverySafe(TestBinding, TestDelivery(body, h), true, false, true) &&
            DeliveryActions(cfg, TestBinding, TestDelivery(body, h), true, false, true) == []
    ensures var cfg, h := ConfigFromEnv(map[]), map["_retryNumber" := Int(3)];
            !DeliverySafe(TestBinding, TestDelivery(body, h), true, false, true) &&
            DeliveryActions(cfg, TestBinding, TestDelivery(body, h), true, false, true) == []
    ensures var cfg := ConfigFromEnv(map[]);
            var b := Binding(cfg.readyQueue, cfg.retryExchange, cfg.retryRoutingKey, "ctag-2", ReturnHop, false);
            !DeliverySafe(b, Delivery(body, map[], "", cfg.readyQueue, 2), true, true, true) &&
            DeliveryActions(cfg, b, Delivery(body, map[], "", cfg.readyQueue, 2), true, true, true) == []
  {
    Strconv.AtoiItoa(-1);
    assert Strconv.Itoa(-1) == "-1";
  }
}
