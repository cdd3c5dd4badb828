/**
  org.apache.cassandra.gms.helpers.CustomMessagingService: the older copy of
  the router. Its registry is a static final map and `register` is static;
  there is no reset. The static map and the single INSTANCE are modelled as
  one object whose identity never changes.
 */
module HelpersMessaging {
  import opened GossipTypes
  import opened Routing

  class CustomMessagingService {
    /** The static `gossipers` map, shared by every use of the class. */
    var gossipers: Registry

    ghost predicate Valid()
      reads this
    {
      KeysMatchAddrs(gossipers)
    }

    /** Class initialisation: the static map starts empty. */
    constructor ()
      ensures Valid() && gossipers == map[]
    {
      gossipers := map[];
    }

    /** Static `register`: files `gossiper` under its own address,
        overwriting any earlier entry there and keeping all others. */
    method Register(gossiper: Gossiper)
      requires Valid()
      modifies this
      ensures Valid()
      ensures gossipers == old(gossipers)[gossiper.broadcastAddr := gossiper]
    {
      gossipers := gossipers[gossiper.broadcastAddr := gossiper];
    }

    /** Delivers `message` to the participant registered at `to`; changes
        nothing in the registry. */
    method SendOneWay(message: MessageOut, to: InetAddr, sender: Gossiper) returns (outcome: SendOutcome)
      ensures outcome == Route(gossipers, message, to, sender)
    {
      if to !in gossipers {
        return UnknownPeer(to);
      }
      var target := gossipers[to];
      match message.verb {
        case GossipDigestSyn =>
          var synMsg := MessageIn(message.from, message.payload, SharedParameters, message.verb, 0);
          outcome := Handled(SynHandler(synMsg, sender, target));
        case GossipDigestAck =>
          var ackMsg := MessageIn(message.from, message.payload, SharedParameters, message.verb, 0);
          outcome := Handled(AckHandler(ackMsg, sender, target));
        case GossipDigestAck2 =>
          var msg := MessageIn(message.from, message.payload, SharedParameters, message.verb, 0);
          outcome := Handled(Ack2Handler(msg, target));
        case OtherVerb(_) =>
          outcome := Ignored;
      }
    }
  }

  /** The class's static state: the final INSTANCE, which also stands for the
      static registry. */
  class HelpersRuntime {
    const instance: CustomMessagingService

    constructor ()
      ensures fresh(instance) && instance.Valid() && instance.gossipers == map[]
    {
      instance := new CustomMessagingService();
    }

    /** `instance()`: always the same object. */
    method Instance() returns (service: CustomMessagingService)
      ensures service == instance
    {
      service := instance;
    }
  }
}
