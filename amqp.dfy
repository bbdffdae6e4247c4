/**
 * The retry ladder of the `amqp` service package.
 *
 * The broker is modelled as the log of the calls the package makes on its
 * channel: declarations, bindings, consumers, publishes and acks. A failed
 * message walks a fixed ladder of delay queues: `publishRetry` sends it, with
 * an incremented `_retryNumber` header, to the delay queue of its tier; when
 * the queue's TTL expires the broker dead-letters it to the retry exchange,
 * which routes it to the ready queue; the retry consumer on the ready queue
 * republishes it to the exchange and routing key it first came from.
 *
 * What the package receives from outside (the environment, whether a body
 * decodes, what a user handler returns, whether a publish succeeds, the
 * broker's message counts) is passed in as parameters.
 */
module Amqp {
  import opened Wrappers
  import Strconv
  import Util

  /** The retry ladder: seconds a failed message waits at each tier. */
  const QueueTtls: seq<nat> := [1, 5, 10, 30, 60, 300, 600]

  const ContentTypeJson: string := "application/json"
  const Uint64Modulus: nat := 0x1_0000_0000_0000_0000

  /** The names the package reads from the environment once, at start-up. */
  datatype Config = Config(readyQueue: string, retryExchange: string, retryRoutingKey: string, retryQueueBase: string)

  /** The package-level names, each an environment variable with a default. */
  function ConfigFromEnv(env: map<string, string>): (c: Config)
    ensures env == map[] ==> c == Config("amqp.retry.ready", "amqp.retry", "retry", "amqp.retry.waiting")
    ensures "RABBITMQ_READY_QUEUE" in env && env["RABBITMQ_READY_QUEUE"] != "" ==> c.readyQueue == env["RABBITMQ_READY_QUEUE"]
    ensures "RABBITMQ_RETRY_EXCHANGE" in env && env["RABBITMQ_RETRY_EXCHANGE"] != "" ==> c.retryExchange == env["RABBITMQ_RETRY_EXCHANGE"]
    ensures "RABBITMQ_RETRY_ROUTING" in env && env["RABBITMQ_RETRY_ROUTING"] != "" ==> c.retryRoutingKey == env["RABBITMQ_RETRY_ROUTING"]
    ensures "RABBITMQ_RETRY_QUEUE" in env && env["RABBITMQ_RETRY_QUEUE"] != "" ==> c.retryQueueBase == env["RABBITMQ_RETRY_QUEUE"]
  {
    Config(Util.Getenv(env, "RABBITMQ_READY_QUEUE", "amqp.retry.ready"),
           Util.Getenv(env, "RABBITMQ_RETRY_EXCHANGE", "amqp.retry"),
           Util.Getenv(env, "RABBITMQ_RETRY_ROUTING", "retry"),
           Util.Getenv(env, "RABBITMQ_RETRY_QUEUE", "amqp.retry.waiting"))
  }

  /** `fmt.Sprintf(retryQueueTemplate, ttl)`: the base name, a dash and the TTL in four digits. */
  function DelayQueueName(cfg: Config, ttl: nat): string {
    cfg.retryQueueBase + "-" + Strconv.FormatPadded(ttl, 4)
  }

  // ---------------------------------------------------------------------------
  // Messages and broker actions

  /** A header value: a string, or an integer (the only other kind the package writes). */
  datatype HeaderValue = Str(s: string) | Int(i: int)

  /** An `amqp.Table`; a nil table and an empty one are both the empty map. */
  type Table = map<string, HeaderValue>

  type Bytes = seq<Util.byte>

  datatype Publishing = Publishing(contentType: string, body: Bytes, headers: Table)

  /** A message as a consumer receives it; `tag` identifies it to `Ack`. */
  datatype Delivery = Delivery(body: Bytes, headers: Table, exchange: string, routingKey: string, tag: nat)

  datatype Action =
    | QueueDeclare(queue: string, args: Table)
    | ExchangeDeclare(exchange: string, kind: string)
    | QueueBind(queue: string, key: string, exchange: string)
    | Consume(queue: string, consumerTag: string)
    | Publish(exchange: string, key: string, msg: Publishing)
    | Ack(deliveryTag: nat)

  function AsSeq(a: Option<Action>): seq<Action> {
    if a.Some? then [a.value] else []
  }

  function CountAcks(acts: seq<Action>): nat {
    if acts == [] then 0 else CountAcks(acts[..|acts| - 1]) + (if acts[|acts| - 1].Ack? then 1 else 0)
  }

  function CountPublishes(acts: seq<Action>): nat {
    if acts == [] then 0 else CountPublishes(acts[..|acts| - 1]) + (if acts[|acts| - 1].Publish? then 1 else 0)
  }

  // ---------------------------------------------------------------------------
  // Topology (ensureChannel)

  /** The arguments of a delay queue: dead-letter back to the retry exchange after `ttl` seconds. */
  function DelayQueueArgs(cfg: Config, ttl: nat): Table {
    map["x-dead-letter-exchange" := Str(cfg.retryExchange),
        "x-dead-letter-routing-key" := Str(cfg.retryRoutingKey),
        "x-message-ttl" := Int(ttl * 1000)]
  }

  function DelayQueueDecl(cfg: Config, ttl: nat): Action {
    QueueDeclare(DelayQueueName(cfg, ttl), DelayQueueArgs(cfg, ttl))
  }

  /** One delay-queue declaration per ladder tier, in ladder order. */
  function LadderDecls(cfg: Config, ttls: seq<nat>): (acts: seq<Action>)
    ensures |acts| == |ttls|
    ensures forall i :: 0 <= i < |ttls| ==> acts[i] == DelayQueueDecl(cfg, ttls[i])
  {
    if ttls == [] then [] else LadderDecls(cfg, ttls[..|ttls| - 1]) + [DelayQueueDecl(cfg, ttls[|ttls| - 1])]
  }

  lemma LadderDeclsStep(cfg: Config, ttls: seq<nat>, i: nat)
    requires i < |ttls|
    ensures LadderDecls(cfg, ttls[..i + 1]) == LadderDecls(cfg, ttls[..i]) + [DelayQueueDecl(cfg, ttls[i])]
  {
    assert ttls[..i + 1][..i] == ttls[..i];
  }

  /** The ready queue, the topic retry exchange and their binding. */
  function ReadySetup(cfg: Config): seq<Action> {
    [QueueDeclare(cfg.readyQueue, map[]),
     ExchangeDeclare(cfg.retryExchange, "topic"),
     QueueBind(cfg.readyQueue, cfg.retryRoutingKey, cfg.retryExchange)]
  }

  /** Everything `ensureChannel` declares, in order. */
  function TopologyPlan(cfg: Config): seq<Action> {
    ReadySetup(cfg) + LadderDecls(cfg, QueueTtls)
  }

  // ---------------------------------------------------------------------------
  // publishRetry

  /** `_retryNumber`, if present, must be a string: the code asserts its type. */
  predicate RetryHeaderIsString(h: Table) {
    "_retryNumber" in h ==> h["_retryNumber"].Str?
  }

  /** The retry count a message carries: `Atoi` of `_retryNumber`, 0 when absent. */
  function RetryNumber(h: Table): int
    requires RetryHeaderIsString(h)
  {
    if "_retryNumber" in h then Strconv.Atoi(h["_retryNumber"].s).value else 0
  }

  /** What `publishRetry` needs not to panic: a string count that is not negative. */
  predicate CanPublishRetry(d: Delivery) {
    RetryHeaderIsString(d.headers) && RetryNumber(d.headers) >= 0
  }

  /** The headers `publishRetry` sends: origin recorded, count incremented, the rest kept. */
  function RetryHeaders(d: Delivery, n: int): Table {
    d.headers["_exchangeName" := Str(d.exchange)]["_routingKey" := Str(d.routingKey)]["_retryNumber" := Str(Strconv.Itoa(n + 1))]
  }

  /**
   * `publishRetry(d)`: nothing once the count has reached the end of the ladder;
   * otherwise one publish on the default exchange to the delay queue of the
   * message's tier.
   */
  function RetryPlan(cfg: Config, d: Delivery): Option<Action>
    requires CanPublishRetry(d)
  {
    var n := RetryNumber(d.headers);
    if n >= |QueueTtls| then None
    else Some(Publish("", DelayQueueName(cfg, QueueTtls[n]), Publishing(ContentTypeJson, d.body, RetryHeaders(d, n))))
  }

  // ---------------------------------------------------------------------------
  // The retry consumer's handler (EnsureRetryConsumer)

  /**
   * What the retry consumer's handler needs not to panic: `_retryNumber` present
   * as a string and, when the message is still on the ladder, the origin headers
   * present as strings.
   */
  predicate CanReturn(h: Table) {
    "_retryNumber" in h && h["_retryNumber"].Str? &&
    (RetryNumber(h) < |QueueTtls| ==>
       "_exchangeName" in h && h["_exchangeName"].Str? && "_routingKey" in h && h["_routingKey"].Str?)
  }

  /**
   * The return hop: a message past the ladder is dropped; any other is
   * republished, body and headers as received, to the exchange and routing key
   * its headers record. The `retryCarrier` keeps the raw body, so what is
   * published is the body that arrived.
   */
  function ReturnPlan(d: Delivery): Option<Action>
    requires CanReturn(d.headers)
  {
    if RetryNumber(d.headers) >= |QueueTtls| then None
    else Some(Publish(d.headers["_exchangeName"].s, d.headers["_routingKey"].s, Publishing(ContentTypeJson, d.body, d.headers)))
  }

  // ---------------------------------------------------------------------------
  // The per-delivery step of HandleFunc

  /** A handler registered with `HandleFunc`: the caller's own, or the retry consumer's. */
  datatype Handler = UserHandler | ReturnHop

  /** A registered consumer; `shouldRetry` is false exactly on the ready queue. */
  datatype Binding = Binding(queue: string, exchange: string, key: string, consumerTag: string, handler: Handler, shouldRetry: bool)

  /** Whether the handler returns an error: the user's says so itself; the return hop fails when its publish does. */
  function HandlerFails(b: Binding, d: Delivery, handlerOk: bool, publishOk: bool): bool
    requires b.handler.ReturnHop? ==> CanReturn(d.headers)
  {
    match b.handler
    case UserHandler => !handlerOk
    case ReturnHop => ReturnPlan(d).Some? && !publishOk
  }

  function HandlerActions(b: Binding, d: Delivery): seq<Action>
    requires b.handler.ReturnHop? ==> CanReturn(d.headers)
  {
    match b.handler
    case UserHandler => []
    case ReturnHop => AsSeq(ReturnPlan(d))
  }

  /**
   * The conditions under which one delivery is handled without a panic. Outside
   * them the consumer goroutine panics on a header type assertion or on a
   * negative ladder index, which ends the process before the delivery is acked.
   */
  predicate DeliverySafe(b: Binding, d: Delivery, decodeOk: bool, handlerOk: bool, publishOk: bool) {
    decodeOk ==>
      (b.handler.ReturnHop? ==> CanReturn(d.headers)) &&
      (HandlerFails(b, d, handlerOk, publishOk) && b.shouldRetry ==> CanPublishRetry(d))
  }

  /**
   * The calls the consumer loop makes for one delivery: a body that does not
   * decode is only acked; otherwise the handler runs, a failure is sent up the
   * ladder when the binding retries, and the delivery is acked. A panic cuts
   * this short: the return hop panics before it publishes, `publishRetry`
   * before it publishes, and in neither case is the delivery acked.
   */
  function DeliveryActions(cfg: Config, b: Binding, d: Delivery, decodeOk: bool, handlerOk: bool, publishOk: bool): seq<Action> {
    if !decodeOk then [Ack(d.tag)]
    else if b.handler.ReturnHop? && !CanReturn(d.headers) then []
    else
      var retries := HandlerFails(b, d, handlerOk, publishOk) && b.shouldRetry;
      if retries && !CanPublishRetry(d) then HandlerActions(b, d)
      else
        var retry := if retries then AsSeq(RetryPlan(cfg, d)) else [];
        HandlerActions(b, d) + retry + [Ack(d.tag)]
  }

  // ---------------------------------------------------------------------------
  // Consumer tags and QueueTotalMessages

  /** The tag of the consumer registered when the counter reached `n`. */
  function ConsumerTag(n: nat): string {
    "ctag-" + Strconv.Itoa(n)
  }

  /** The sum `QueueTotalMessages` returns; a queue the broker cannot inspect counts 0. */
  function SumMessages(names: seq<string>, counts: map<string, nat>): nat {
    if names == [] then 0
    else SumMessages(names[..|names| - 1], counts) + (if names[|names| - 1] in counts then counts[names[|names| - 1]] else 0)
  }

  /** `QueueTotalMessages` without the channel set-up: a loop that adds up the counts. */
  method SumQueueMessages(names: seq<string>, counts: map<string, nat>) returns (total: nat)
    ensures total == SumMessages(names, counts)
  {
    total := 0;
    for i := 0 to |names|
      invariant total == SumMessages(names[..i], counts)
    {
      assert names[..i + 1][..i] == names[..i];
      total := total + if names[i] in counts then counts[names[i]] else 0;
    }
    assert names[..|names|] == names;
  }

  /** The `uint64` counter after one more increment. */
  lemma CounterStep(n: nat)
    ensures (n % Uint64Modulus + 1) % Uint64Modulus == (n + 1) % Uint64Modulus
  {
    var q, r := n / Uint64Modulus, n % Uint64Modulus;
    assert n + 1 == q * Uint64Modulus + (r + 1);
    if r + 1 == Uint64Modulus {
      assert n + 1 == (q + 1) * Uint64Modulus;
    }
  }

  /** Binding `i` carries tag `ctag-(i+1)` (mod 2^64) and retries unless it is on the ready queue. */
  predicate BindingRules(cfg: Config, bs: seq<Binding>) {
    forall i :: 0 <= i < |bs| ==>
      bs[i].consumerTag == ConsumerTag((i + 1) % Uint64Modulus) &&
      bs[i].shouldRetry == (bs[i].queue != cfg.readyQueue)
  }

  /** The binding `EnsureRetryConsumer` makes: the return hop on the ready queue, bound to the retry exchange. */
  predicate IsRetryConsumer(cfg: Config, b: Binding) {
    b.handler.ReturnHop? && b.queue == cfg.readyQueue &&
    b.exchange == cfg.retryExchange && b.key == cfg.retryRoutingKey
  }

  predicate HasRetryConsumer(cfg: Config, bs: seq<Binding>) {
    exists i :: 0 <= i < |bs| && IsRetryConsumer(cfg, bs[i])
  }

  lemma BindingsAppend(cfg: Config, bs: seq<Binding>, b: Binding)
    requires BindingRules(cfg, bs)
    requires b.consumerTag == ConsumerTag((|bs| + 1) % Uint64Modulus) && b.shouldRetry == (b.queue != cfg.readyQueue)
    ensures BindingRules(cfg, bs + [b])
    ensures HasRetryConsumer(cfg, bs) ==> HasRetryConsumer(cfg, bs + [b])
    ensures IsRetryConsumer(cfg, b) ==> HasRetryConsumer(cfg, bs + [b])
  {
    var bs2 := bs + [b];
    forall j | 0 <= j < |bs2|
      ensures bs2[j].consumerTag == ConsumerTag((j + 1) % Uint64Modulus) && bs2[j].shouldRetry == (bs2[j].queue != cfg.readyQueue)
    {
      if j < |bs| {
        assert bs2[j] == bs[j];
      }
    }
    RetryConsumerAppend(cfg, bs, b);
  }

  lemma RetryConsumerAppend(cfg: Config, bs: seq<Binding>, b: Binding)
    ensures HasRetryConsumer(cfg, bs) ==> HasRetryConsumer(cfg, bs + [b])
    ensures IsRetryConsumer(cfg, b) ==> HasRetryConsumer(cfg, bs + [b])
  {
    var bs2 := bs + [b];
    if HasRetryConsumer(cfg, bs) {
      var i :| 0 <= i < |bs| && IsRetryConsumer(cfg, bs[i]);
      assert bs2[i] == bs[i];
    }
    if IsRetryConsumer(cfg, b) {
      assert bs2[|bs|] == b;
    }
  }

  lemma PrefixAppend(p: seq<Action>, a: seq<Action>, b: seq<Action>)
    requires p <= a
    ensures p <= a + b
  {
    assert (a + b)[..|p|] == a[..|p|];
  }

  lemma AppendThree(a: seq<Action>, x: seq<Action>, y: seq<Action>, z: seq<Action>)
    ensures a + x + y + z == a + (x + y + z)
  {
  }

  // ---------------------------------------------------------------------------
  // The package state

  /**
   * The package-level state: the configuration, the log of calls made on the
   * channel, the consumer-tag counter, the two once-flags, and the consumers
   * registered so far.
   */
  class Dispatcher {
    const cfg: Config
    var log: seq<Action>
    var consumerSeq: nat
    var channelReady: bool
    var retryConsumerReady: bool
    var bindings: seq<Binding>

    /** The topology comes first, once; every binding's tag and retry flag follow the rules of `HandleFunc`. */
    ghost predicate Valid()
      reads this
    {
      (channelReady ==> TopologyPlan(cfg) <= log) &&
      (!channelReady ==> log == [] && bindings == [] && !retryConsumerReady) &&
      consumerSeq == |bindings| % Uint64Modulus &&
      BindingRules(cfg, bindings) &&
      (retryConsumerReady ==> HasRetryConsumer(cfg, bindings))
    }

    constructor (env: map<string, string>)
      ensures cfg == ConfigFromEnv(env)
      ensures log == [] && bindings == [] && consumerSeq == 0
      ensures !channelReady && !retryConsumerReady
      ensures Valid()
    {
      cfg := ConfigFromEnv(env);
      log := [];
      consumerSeq := 0;
      channelReady := false;
      retryConsumerReady := false;
      bindings := [];
    }

    /** `ensureChannel`: the topology is declared on the first call only. */
    method EnsureChannel()
      requires Valid()
      modifies this
      ensures Valid() && channelReady
      ensures log == old(log) + (if old(channelReady) then [] else TopologyPlan(cfg))
      ensures bindings == old(bindings) && consumerSeq == old(consumerSeq)
      ensures retryConsumerReady == old(retryConsumerReady)
    {
      if channelReady {
        return;
      }
      log := log + ReadySetup(cfg);
      DeclareLadder(QueueTtls);
      channelReady := true;
    }

    /** The loop of `ensureChannel` that declares one delay queue per ladder tier. */
    method DeclareLadder(ttls: seq<nat>)
      modifies this
      ensures log == old(log) + LadderDecls(cfg, ttls)
      ensures bindings == old(bindings) && consumerSeq == old(consumerSeq)
      ensures channelReady == old(channelReady) && retryConsumerReady == old(retryConsumerReady)
    {
      for i := 0 to |ttls|
        invariant log == old(log) + LadderDecls(cfg, ttls[..i])
        invariant bindings == old(bindings) && consumerSeq == old(consumerSeq)
        invariant channelReady == old(channelReady) && retryConsumerReady == old(retryConsumerReady)
      {
        var ttl := ttls[i];
        LadderDeclsStep(cfg, ttls, i);
        log := log + [QueueDeclare(DelayQueueName(cfg, ttl), DelayQueueArgs(cfg, ttl))];
      }
      assert ttls[..|ttls|] == ttls;
    }

    /** `EnsureExchange(name)`: declares a topic exchange. */
    method EnsureExchange(name: string)
      requires Valid()
      modifies this
      ensures Valid() && channelReady
      ensures log == old(log) + (if old(channelReady) then [] else TopologyPlan(cfg)) + [ExchangeDeclare(name, "topic")]
      ensures bindings == old(bindings) && consumerSeq == old(consumerSeq) && retryConsumerReady == old(retryConsumerReady)
    {
      EnsureChannel();
      log := log + [ExchangeDeclare(name, "topic")];
    }

    /** `EnsureQueue(name)`: declares a queue without arguments. */
    method EnsureQueue(name: string)
      requires Valid()
      modifies this
      ensures Valid() && channelReady
      ensures log == old(log) + (if old(channelReady) then [] else TopologyPlan(cfg)) + [QueueDeclare(name, map[])]
      ensures bindings == old(bindings) && consumerSeq == old(consumerSeq) && retryConsumerReady == old(retryConsumerReady)
    {
      EnsureChannel();
      log := log + [QueueDeclare(name, map[])];
    }

    /**
     * `Publish(exchange, key, msg)`, with `body` the message already marshalled
     * to JSON. The call is made whatever the broker answers; its error, given
     * as `brokerErr`, is what `Publish` returns.
     */
    method Publish(exchange: string, key: string, body: Bytes, brokerErr: Option<string>) returns (err: Option<string>)
      requires Valid()
      modifies this
      ensures err == brokerErr
      ensures Valid() && channelReady
      ensures log == old(log) + (if old(channelReady) then [] else TopologyPlan(cfg)) +
                     [Action.Publish(exchange, key, Publishing(ContentTypeJson, body, map[]))]
      ensures bindings == old(bindings) && consumerSeq == old(consumerSeq) && retryConsumerReady == old(retryConsumerReady)
    {
      EnsureChannel();
      log := log + [Action.Publish(exchange, key, Publishing(ContentTypeJson, body, map[]))];
      err := brokerErr;
    }

    /**
     * `HandleFunc(queue, exchange, key, ...)`: declares the exchange and the
     * queue, binds them, and registers a consumer under the next `ctag-N`
     * (the counter is a `uint64` and wraps).
     */
    method HandleFunc(queue: string, exchange: string, key: string, handler: Handler) returns (ctag: string)
      requires Valid()
      modifies this
      ensures Valid() && channelReady
      ensures consumerSeq == (old(consumerSeq) + 1) % Uint64Modulus
      ensures ctag == ConsumerTag(consumerSeq)
      ensures log == old(log) + (if old(channelReady) then [] else TopologyPlan(cfg)) +
                     [ExchangeDeclare(exchange, "topic"), QueueDeclare(queue, map[]),
                      QueueBind(queue, key, exchange), Consume(queue, ctag)]
      ensures bindings == old(bindings) + [Binding(queue, exchange, key, ctag, handler, queue != cfg.readyQueue)]
      ensures retryConsumerReady == old(retryConsumerReady)
    {
      EnsureChannel();
      EnsureExchange(exchange);
      EnsureQueue(queue);
      log := log + [QueueBind(queue, key, exchange)];
      ctag := AddConsumer(queue, exchange, key, handler);
    }

    /** The consumer-registration half of `HandleFunc`: next tag, `Consume`, and the binding's retry rule. */
    method AddConsumer(queue: string, exchange: string, key: string, handler: Handler) returns (ctag: string)
      requires Valid() && channelReady
      modifies this
      ensures Valid() && channelReady
      ensures consumerSeq == (old(consumerSeq) + 1) % Uint64Modulus
      ensures ctag == ConsumerTag(consumerSeq)
      ensures log == old(log) + [Consume(queue, ctag)]
      ensures bindings == old(bindings) + [Binding(queue, exchange, key, ctag, handler, queue != cfg.readyQueue)]
      ensures retryConsumerReady == old(retryConsumerReady)
    {
      CounterStep(|bindings|);
      consumerSeq := (consumerSeq + 1) % Uint64Modulus;
      ctag := ConsumerTag(consumerSeq);
      log := log + [Consume(queue, ctag)];
      var shouldRetry := true;
      if queue == cfg.readyQueue {
        shouldRetry := false;
      }
      var b := Binding(queue, exchange, key, ctag, handler, shouldRetry);
      BindingsAppend(cfg, bindings, b);
      bindings := bindings + [b];
    }

    /**
     * `EnsureRetryConsumer()`: the first call registers the return hop on the
     * ready queue, bound to the retry exchange under the retry routing key, as
     * the next consumer; later calls do nothing.
     */
    method EnsureRetryConsumer()
      requires Valid()
      modifies this
      ensures Valid() && retryConsumerReady && channelReady
      ensures old(retryConsumerReady) ==>
                log == old(log) && bindings == old(bindings) && consumerSeq == old(consumerSeq)
      ensures !old(retryConsumerReady) ==>
                consumerSeq == (old(consumerSeq) + 1) % Uint64Modulus &&
                log == old(log) + (if old(channelReady) then [] else TopologyPlan(cfg)) +
                       [ExchangeDeclare(cfg.retryExchange, "topic"), QueueDeclare(cfg.readyQueue, map[]),
                        QueueBind(cfg.readyQueue, cfg.retryRoutingKey, cfg.retryExchange),
                        Consume(cfg.readyQueue, ConsumerTag(consumerSeq))] &&
                bindings == old(bindings) +
                            [Binding(cfg.readyQueue, cfg.retryExchange, cfg.retryRoutingKey, ConsumerTag(consumerSeq), ReturnHop, false)]
    {
      if retryConsumerReady {
        return;
      }
      // `HandleFunc` opens the channel first, which is all the `ensureChannel` call before it does.
      var ctag := HandleFunc(cfg.readyQueue, cfg.retryExchange, cfg.retryRoutingKey, ReturnHop);
      assert IsRetryConsumer(cfg, bindings[|bindings| - 1]);
      retryConsumerReady := true;
    }

    /**
     * `publishRetry(d)`: appends the retry publish, if any. A `_retryNumber`
     * that is not a string fails its type assertion, and a negative count
     * indexes the ladder out of range: both panic before anything is published.
     */
    method PublishRetry(d: Delivery) returns (panicked: bool)
      requires Valid() && channelReady
      modifies this
      ensures Valid()
      ensures panicked <==> !CanPublishRetry(d)
      ensures log == old(log) + (if panicked then [] else AsSeq(RetryPlan(cfg, d)))
      ensures bindings == old(bindings) && consumerSeq == old(consumerSeq)
      ensures channelReady && retryConsumerReady == old(retryConsumerReady)
    {
      panicked := false;
      var n := 0;
      var headers := d.headers;
      headers := headers["_exchangeName" := Str(d.exchange)];
      headers := headers["_routingKey" := Str(d.routingKey)];
      if "_retryNumber" in headers {
        if !headers["_retryNumber"].Str? {
          return true;
        }
        n := Strconv.Atoi(headers["_retryNumber"].s).value;
      }
      if n >= |QueueTtls| {
        return;
      }
      headers := headers["_retryNumber" := Str(Strconv.Itoa(n + 1))];
      if n < 0 {
        return true;
      }
      log := log + [Action.Publish("", DelayQueueName(cfg, QueueTtls[n]), Publishing(ContentTypeJson, d.body, headers))];
    }

    /**
     * One turn of the consumer loop of binding `i` for delivery `d`; the decode
     * result, the user handler's result and the broker's publish result are inputs.
     * `panicked` reports a panic in the consumer goroutine, after which the
     * process is gone and the delivery stays unacked.
     */
    method Deliver(i: nat, d: Delivery, decodeOk: bool, handlerOk: bool, publishOk: bool) returns (panicked: bool)
      requires Valid() && i < |bindings|
      modifies this
      ensures bindings == old(bindings) && consumerSeq == old(consumerSeq)
      ensures Valid()
      ensures panicked <==> !DeliverySafe(bindings[i], d, decodeOk, handlerOk, publishOk)
      ensures log == old(log) + DeliveryActions(cfg, bindings[i], d, decodeOk, handlerOk, publishOk)
      ensures channelReady == old(channelReady) && retryConsumerReady == old(retryConsumerReady)
    {
      panicked := false;
      var b := bindings[i];
      if !decodeOk {
        PrefixAppend(TopologyPlan(cfg), log, [Ack(d.tag)]);
        log := log + [Ack(d.tag)];
        return;
      }
      // The return hop asserts the types of its headers before it publishes.
      if b.handler.ReturnHop? && !CanReturn(d.headers) {
        assert DeliveryActions(cfg, b, d, decodeOk, handlerOk, publishOk) == [];
        return true;
      }
      panicked := RunHandler(b, d, handlerOk, publishOk);
    }

    /** The rest of the turn for a decoded delivery: the handler, the retry when it fails and the binding retries, the ack. */
    method RunHandler(b: Binding, d: Delivery, handlerOk: bool, publishOk: bool) returns (panicked: bool)
      requires Valid() && channelReady && (b.handler.ReturnHop? ==> CanReturn(d.headers))
      modifies this
      ensures bindings == old(bindings) && consumerSeq == old(consumerSeq)
      ensures Valid()
      ensures panicked <==> !DeliverySafe(b, d, true, handlerOk, publishOk)
      ensures log == old(log) + DeliveryActions(cfg, b, d, true, handlerOk, publishOk)
      ensures channelReady == old(channelReady) && retryConsumerReady == old(retryConsumerReady)
    {
      panicked := false;
      // The return hop publishes, a user handler only reports.
      var failed := HandlerFails(b, d, handlerOk, publishOk);
      ghost var before := log;
      PrefixAppend(TopologyPlan(cfg), log, HandlerActions(b, d));
      log := log + HandlerActions(b, d);
      ghost var afterHandler := log;
      if failed && b.shouldRetry {
        panicked := PublishRetry(d);
        if panicked {
          return;
        }
      }
      ghost var retry := if failed && b.shouldRetry then AsSeq(RetryPlan(cfg, d)) else [];
      assert log == afterHandler + retry;
      PrefixAppend(TopologyPlan(cfg), log, [Ack(d.tag)]);
      log := log + [Ack(d.tag)];
      AppendThree(before, HandlerActions(b, d), retry, [Ack(d.tag)]);
    }

    /** `QueueTotalMessages(names)`, with the broker's per-queue counts as an input. */
    method QueueTotalMessages(names: seq<string>, counts: map<string, nat>) returns (total: nat)
      requires Valid()
      modifies this
      ensures Valid() && channelReady
      ensures log == old(log) + (if old(channelReady) then [] else TopologyPlan(cfg))
      ensures total == SumMessages(names, counts)
    {
      EnsureChannel();
      total := SumQueueMessages(names, counts);
    }
  }
}
