/**
  What `sendOneWay` does with one outbound message, shared by the two
  CustomMessagingService classes (org.apache.cassandra.gms and
  org.apache.cassandra.gms.helpers), whose `sendOneWay` bodies are the same.
  The three verb handlers are external: a delivery is recorded as the
  handler call it makes, with the arguments it passes.
 */
module Routing {
  import opened GossipTypes

  /** The verbs of Cassandra's messaging enum; only the three gossip verbs
      are routed, every other verb is `OtherVerb`. */
  datatype Verb = GossipDigestSyn | GossipDigestAck | GossipDigestAck2 | OtherVerb(name: string)

  /** The message payload (a GossipDigestSyn, Ack or Ack2) is opaque here. */
  type Payload = seq<int>

  type Parameters = map<string, seq<int>>

  datatype MessageOut = MessageOut(from: InetAddr, verb: Verb, payload: Payload)

  /** `MessageIn.create(from, payload, parameters, verb, version)`. */
  datatype MessageIn = MessageIn(
    from: InetAddr, payload: Payload, parameters: Parameters, verb: Verb, version: int)

  /** The static `parameters` map both services attach to every inbound
      message; nothing ever adds to it. */
  const SharedParameters: Parameters := map[]

  /** The handler invocation a delivery makes: SYN and ACK handlers get the
      sender and the target, the ACK2 handler the target only. */
  datatype HandlerCall =
    | SynHandler(msg: MessageIn, sender: Gossiper, target: Gossiper)
    | AckHandler(msg: MessageIn, sender: Gossiper, target: Gossiper)
    | Ack2Handler(msg: MessageIn, target: Gossiper)
  {
    function Msg(): MessageIn
    {
      match this
      case SynHandler(m, _, _) => m
      case AckHandler(m, _, _) => m
      case Ack2Handler(m, _) => m
    }

    function Target(): Gossiper
    {
      match this
      case SynHandler(_, _, t) => t
      case AckHandler(_, _, t) => t
      case Ack2Handler(_, t) => t
    }

    /** The verb each handler serves. */
    function HandledVerb(): Verb
    {
      match this
      case SynHandler(_, _, _) => GossipDigestSyn
      case AckHandler(_, _, _) => GossipDigestAck
      case Ack2Handler(_, _) => GossipDigestAck2
    }
  }

  /** Outcome of one `sendOneWay`: a handler ran, the verb matched no case,
      or the IllegalArgumentException for an unknown peer. */
  datatype SendOutcome = Handled(call: HandlerCall) | Ignored | UnknownPeer(addr: InetAddr)

  predicate IsGossipVerb(v: Verb)
  {
    v.GossipDigestSyn? || v.GossipDigestAck? || v.GossipDigestAck2?
  }

  /** The inbound copy of `message` that every handler receives. */
  function Inbound(message: MessageOut): MessageIn
  {
    MessageIn(message.from, message.payload, SharedParameters, message.verb, 0)
  }

  /** Look the destination up, then demultiplex by verb. */
  function Route(gossipers: Registry, message: MessageOut, to: InetAddr, sender: Gossiper): SendOutcome
  {
    if to !in gossipers then UnknownPeer(to)
    else
      var target := gossipers[to];
      match message.verb
      case GossipDigestSyn => Handled(SynHandler(Inbound(message), sender, target))
      case GossipDigestAck => Handled(AckHandler(Inbound(message), sender, target))
      case GossipDigestAck2 => Handled(Ack2Handler(Inbound(message), target))
      case OtherVerb(_) => Ignored
  }

  /** A send fails exactly when the destination is not registered, and then
      no handler runs. */
  lemma RouteFailsIffUnknown(gossipers: Registry, message: MessageOut, to: InetAddr, sender: Gossiper)
    ensures Route(gossipers, message, to, sender).UnknownPeer? <==> to !in gossipers
    ensures to !in gossipers ==> Route(gossipers, message, to, sender) == UnknownPeer(to)
  {
  }

  /** A handler runs exactly when the destination is registered and the verb
      is one of the three gossip verbs; otherwise a registered destination
      means the message is dropped without error. */
  lemma RouteHandlesIffGossipVerb(gossipers: Registry, message: MessageOut, to: InetAddr, sender: Gossiper)
    ensures Route(gossipers, message, to, sender).Handled? <==> to in gossipers && IsGossipVerb(message.verb)
    ensures Route(gossipers, message, to, sender).Ignored? <==> to in gossipers && !IsGossipVerb(message.verb)
  {
  }

  /** The handler that runs is the one for the message's verb; it receives
      the registered target, and the inbound message keeps the sender's
      address, payload and verb, with the shared parameters and version 0.
      Under the registry invariant the target is the participant whose
      address the message was sent to. */
  lemma RouteDeliversToTarget(gossipers: Registry, message: MessageOut, to: InetAddr, sender: Gossiper)
    requires Route(gossipers, message, to, sender).Handled?
    ensures to in gossipers
    ensures var call := Route(gossipers, message, to, sender).call;
      && call.HandledVerb() == message.verb
      && call.Target() == gossipers[to]
      && call.Msg() == MessageIn(message.from, message.payload, SharedParameters, message.verb, 0)
    ensures KeysMatchAddrs(gossipers) ==> Route(gossipers, message, to, sender).call.Target().broadcastAddr == to
  {
  }

  /** SYN and ACK handlers are passed the sending participant; the ACK2
      handler is not, so which participant sent an ACK2 makes no
      difference to its delivery. */
  lemma RoutePassesSender(gossipers: Registry, message: MessageOut, to: InetAddr, sender: Gossiper, other: Gossiper)
    requires to in gossipers
    ensures message.verb.GossipDigestSyn? || message.verb.GossipDigestAck? ==>
      Route(gossipers, message, to, sender).call.sender == sender
    ensures message.verb.GossipDigestAck2? ==>
      Route(gossipers, message, to, sender) == Route(gossipers, message, to, other)
  {
  }

  /** Registering `g` makes every send to its address reach `g`, and leaves
      sends to every other address as they were. */
  lemma RouteAfterRegister(gossipers: Registry, g: Gossiper, message: MessageOut, to: InetAddr, sender: Gossiper)
    ensures var r := Route(gossipers[g.broadcastAddr := g], message, to, sender);
      && (to == g.broadcastAddr && IsGossipVerb(message.verb) ==> r.Handled? && r.call.Target() == g)
      && (to != g.broadcastAddr ==> r == Route(gossipers, message, to, sender))
  {
  }

  /** On an emptied registry every send fails: nothing registered before a
      reset can be reached. */
  lemma RouteOnEmptyRegistry(message: MessageOut, to: InetAddr, sender: Gossiper)
    ensures Route(map[], message, to, sender) == UnknownPeer(to)
  {
  }
}
