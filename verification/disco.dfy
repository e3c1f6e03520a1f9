/**
 * The parts of XEP-0030 service discovery that the AMP manager consumes:
 * the per-connection registry of advertised features, and the outcome of a
 * disco#info query sent to the peer's server.
 */
module ServiceDiscovery {

  /**
   * The set of feature vars one connection advertises in its own disco#info
   * replies. The ghost counters record how many times AddFeature and
   * RemoveFeature have been called, so that callers can state when they
   * did not touch the registry at all.
   */
  class FeatureRegistry {
    var features: set<string>
    ghost var adds: nat
    ghost var removes: nat

    constructor ()
      ensures features == {} && adds == 0 && removes == 0
    {
      features := {};
      adds, removes := 0, 0;
    }

    method AddFeature(feature: string)
      modifies this
      ensures features == old(features) + {feature}
      ensures adds == old(adds) + 1 && removes == old(removes)
    {
      features := features + {feature};
      adds := adds + 1;
    }

    method RemoveFeature(feature: string)
      modifies this
      ensures features == old(features) - {feature}
      ensures removes == old(removes) + 1 && adds == old(adds)
    {
      features := features - {feature};
      removes := removes + 1;
    }

    predicate IncludesFeature(feature: string)
      reads this
    {
      feature in features
    }
  }

  /**
   * The outcome of one disco#info round trip: the query failed (an error
   * reply, a timeout, a malformed answer), or the peer answered with its
   * feature vars in the order it listed them.
   */
  datatype DiscoResult = Failure | Success(features: seq<string>)

  /** How the peer's server answers a disco#info query addressed to a node. */
  type Discovery = string -> DiscoResult
}
