/**
  org.apache.cassandra.gms.CustomMessagingService: an in-memory router whose
  registry lives in the service object, plus the static INSTANCE slot that
  `renewInstance` replaces at the start of every simulation.
 */
module GmsMessaging {
  import opened GossipTypes
  import opened Routing

  class CustomMessagingService {
    /** The `gossipers` map: participants by broadcast address. */
    var gossipers: Registry

    ghost predicate Valid()
      reads this
    {
      KeysMatchAddrs(gossipers)
    }

    constructor ()
      ensures Valid() && gossipers == map[]
    {
      gossipers := map[];
    }

    /** Files `gossiper` under its own address, replacing whatever was
        registered there before; every other entry is kept. */
    method Register(gossiper: Gossiper)
      requires Valid()
      modifies this
      ensures Valid()
      ensures gossipers == old(gossipers)[gossiper.broadcastAddr := gossiper]
    {
      gossipers := gossipers[gossiper.broadcastAddr := gossiper];
    }

    /** Delivers `message` to the participant registered at `to`; changes
        nothing in the service. */
    method SendOneWay(message: MessageOut, to: InetAddr, sender: Gossiper) returns (outcome: SendOutcome)
      ensures outcome == Route(gossipers, message, to, sender)
    {
      if to !in gossipers {
        return UnknownPeer(to);
      }
      var target := gossipers[to];
      match message.verb {
        case GossipDigestSyn =>
          var synMsg := MessageIn(message.from, message.payload, SharedParameters, message.verb, 0);
          outcome := Handled(SynHandler(synMsg, sender, target));
        case GossipDigestAck =>
          var ackMsg := MessageIn(message.from, message.payload, SharedParameters, message.verb, 0);
          outcome := Handled(AckHandler(ackMsg, sender, target));
        case GossipDigestAck2 =>
          var msg := MessageIn(message.from, message.payload, SharedParameters, message.verb, 0);
          outcome := Handled(Ack2Handler(msg, target));
        case OtherVerb(_) =>
          outcome := Ignored;
      }
    }
  }

  /** The class's static state: the INSTANCE field. */
  class MessagingRuntime {
    var instance: CustomMessagingService

    /** Class initialisation creates a first, empty service. */
    constructor ()
      ensures fresh(instance) && instance.Valid() && instance.gossipers == map[]
    {
      instance := new CustomMessagingService();
    }

    /** `instance()`: the current service, without side effects. */
    method Instance() returns (service: CustomMessagingService)
      ensures service == instance
    {
      service := instance;
    }

    /** `renewInstance()`: a brand-new service with an empty registry takes
        the slot, so the previous service and its participants are no longer
        reachable through `Instance`. */
    method RenewInstance()
      modifies this
      ensures fresh(instance) && instance != old(instance)
      ensures instance.Valid() && instance.gossipers == map[]
    {
      instance := new CustomMessagingService();
    }
  }
}
