/**
 * Capability negotiation for XEP-0079 Advanced Message Processing (AMP).
 *
 * The registrar toggles whether the AMP namespace is advertised on a
 * connection; the prober asks the peer's server, through a disco#info query
 * on the AMP node, whether it supports one action or one condition.
 *
 * The AMP namespace constant and the names of the AMP actions are defined
 * outside this model, so they are parameters: `ns` is the namespace, and
 * `actionName` gives the canonical name of an action.
 */
module AmpManager {
  import opened ServiceDiscovery

  // ---------------------------------------------------------------------
  // Registrar
  // ---------------------------------------------------------------------

  /**
   * The advertised-feature set after asking for the namespace to be
   * advertised (`enabled`) or not: the namespace's membership becomes
   * `enabled`, every other feature keeps its membership, and a set that is
   * already in the requested state is returned as it is.
   */
  function Advertised(features: set<string>, ns: string, enabled: bool): (s: set<string>)
    ensures ns in s <==> enabled
    ensures forall f :: f != ns ==> (f in s <==> f in features)
    ensures (ns in features) == enabled ==> s == features
  {
    if (ns in features) == enabled then features
    else if enabled then features + {ns}
    else features - {ns}
  }

  /** Whether AMP support is advertised on the connection owning `registry`. */
  function IsServiceEnabled(registry: FeatureRegistry, ns: string): (r: bool)
    reads registry
    ensures r <==> ns in registry.features
  {
    registry.IncludesFeature(ns)
  }

  /**
   * Enables or disables AMP support on a connection. When the connection is
   * already in the requested state nothing is called on the registry;
   * otherwise exactly one AddFeature (to enable) or RemoveFeature (to
   * disable) is made.
   */
  method SetServiceEnabled(registry: FeatureRegistry, ns: string, enabled: bool)
    modifies registry
    ensures IsServiceEnabled(registry, ns) == enabled
    ensures registry.features == Advertised(old(registry.features), ns, enabled)
    ensures forall f :: f != ns ==> (f in registry.features <==> f in old(registry.features))
    ensures old(IsServiceEnabled(registry, ns)) == enabled ==>
              registry.features == old(registry.features) &&
              registry.adds == old(registry.adds) && registry.removes == old(registry.removes)
    ensures registry.adds == old(registry.adds) + (if enabled && !old(IsServiceEnabled(registry, ns)) then 1 else 0)
    ensures registry.removes == old(registry.removes) + (if !enabled && old(IsServiceEnabled(registry, ns)) then 1 else 0)
  {
    if IsServiceEnabled(registry, ns) == enabled {
      return;
    }
    if enabled {
      registry.AddFeature(ns);
    } else {
      registry.RemoveFeature(ns);
    }
  }

  /**
   * Two calls with the same value in a row: the second one finds the
   * connection already in the requested state and changes nothing, so the
   * pair has the effect of one call: one add or remove when the state had to
   * change, none when it already matched.
   */
  method SetServiceEnabledTwice(registry: FeatureRegistry, ns: string, enabled: bool)
    modifies registry
    ensures IsServiceEnabled(registry, ns) == enabled
    ensures registry.features == Advertised(old(registry.features), ns, enabled)
    ensures registry.adds == old(registry.adds) + (if enabled && !old(IsServiceEnabled(registry, ns)) then 1 else 0)
    ensures registry.removes == old(registry.removes) + (if !enabled && old(IsServiceEnabled(registry, ns)) then 1 else 0)
    ensures (registry.adds - old(registry.adds)) + (registry.removes - old(registry.removes)) <= 1
  {
    SetServiceEnabled(registry, ns, enabled);
    ghost var afterFirst := registry.features;
    ghost var addsAfterFirst, removesAfterFirst := registry.adds, registry.removes;
    SetServiceEnabled(registry, ns, enabled);
    // The second call finds the requested state and changes nothing.
    assert registry.features == afterFirst;
    assert registry.adds == addsAfterFirst && registry.removes == removesAfterFirst;
  }

  /**
   * The body of the listener registered for every new connection: AMP
   * support is advertised before application code sees the connection.
   */
  method ConnectionCreated(registry: FeatureRegistry, ns: string)
    modifies registry
    ensures IsServiceEnabled(registry, ns)
    ensures registry.features == old(registry.features) + {ns}
    ensures registry.removes == old(registry.removes)
    ensures registry.adds == old(registry.adds) + (if ns in old(registry.features) then 0 else 1)
  {
    SetServiceEnabled(registry, ns, true);
  }

  /** Asking twice for the same state is the same as asking once. */
  lemma AdvertisedIdempotent(features: set<string>, ns: string, enabled: bool)
    ensures Advertised(Advertised(features, ns, enabled), ns, enabled) == Advertised(features, ns, enabled)
  {
  }

  /**
   * Whatever was asked for before, the advertised set is determined by the
   * last request; in particular enabling and then disabling leaves the
   * namespace absent and every other feature as it was at the start.
   */
  lemma AdvertisedLastRequestWins(features: set<string>, ns: string, first: bool, second: bool)
    ensures Advertised(Advertised(features, ns, first), ns, second) == Advertised(features, ns, second)
  {
  }

  // ---------------------------------------------------------------------
  // Capability prober
  // ---------------------------------------------------------------------

  const ActionKind: string := "action"
  const ConditionKind: string := "condition"

  /**
   * The qualified feature var `<ns>?<kind>=<value>` that a server lists to
   * say it supports one AMP action or condition. It is built byte for byte:
   * nothing is trimmed, escaped or case-folded.
   */
  function QualifiedFeature(ns: string, kind: string, value: string): (r: string)
    ensures |r| == |ns| + |kind| + |value| + 2
    ensures r[..|ns|] == ns && r[|ns|] == '?'
    ensures r[|ns| + 1..|ns| + 1 + |kind|] == kind && r[|ns| + 1 + |kind|] == '='
    ensures r[|ns| + |kind| + 2..] == value
  {
    ns + "?" + kind + "=" + value
  }

  /** Different values of the same kind give different feature vars. */
  lemma QualifiedFeatureInjective(ns: string, kind: string, v1: string, v2: string)
    ensures QualifiedFeature(ns, kind, v1) == QualifiedFeature(ns, kind, v2) <==> v1 == v2
  {
  }

  /** An action's feature var is never a condition's feature var. */
  lemma ActionAndConditionFeaturesDiffer(ns: string, action: string, condition: string)
    ensures QualifiedFeature(ns, ActionKind, action) != QualifiedFeature(ns, ConditionKind, condition)
  {
  }

  /**
   * A disco#info outcome confirms a feature var when the query succeeded
   * and some listed var is exactly equal to it. A failed query confirms
   * nothing.
   */
  ghost predicate Confirms(info: DiscoResult, featureName: string)
  {
    info.Success? && exists i :: 0 <= i < |info.features| && info.features[i] == featureName
  }

  /**
   * Queries the peer's server on `node` and scans the listed feature vars
   * for one exactly equal to `featureName`, stopping at the first match.
   * A failed query is reported as unsupported, never as an error.
   */
  method IsFeatureSupportedByServer(discover: Discovery, featureName: string, node: string)
    returns (supported: bool)
    ensures supported <==> Confirms(discover(node), featureName)
    ensures discover(node).Failure? ==> !supported
    ensures discover(node) == Success([]) ==> !supported
  {
    var info := discover(node);
    if info.Failure? {
      return false;
    }
    var features := info.features;
    var i := 0;
    while i < |features|
      invariant 0 <= i <= |features|
      invariant forall j :: 0 <= j < i ==> features[j] != featureName
    {
      if featureName == features[i] {
        return true;
      }
      i := i + 1;
    }
    return false;
  }

  /**
   * Whether the peer's server supports an AMP action: the feature var
   * `<ns>?action=<name of the action>` is looked up on the AMP node.
   */
  method IsActionSupported<A>(discover: Discovery, ns: string, actionName: A -> string, action: A)
    returns (supported: bool)
    ensures supported <==> Confirms(discover(ns), QualifiedFeature(ns, ActionKind, actionName(action)))
  {
    var featureName := QualifiedFeature(ns, ActionKind, actionName(action));
    supported := IsFeatureSupportedByServer(discover, featureName, ns);
  }

  /**
   * Whether the peer's server supports an AMP condition: the feature var
   * `<ns>?condition=<conditionName>` is looked up on the AMP node. The name
   * is not checked against the known conditions.
   */
  method IsConditionSupported(discover: Discovery, ns: string, conditionName: string)
    returns (supported: bool)
    ensures supported <==> Confirms(discover(ns), QualifiedFeature(ns, ConditionKind, conditionName))
  {
    var featureName := QualifiedFeature(ns, ConditionKind, conditionName);
    supported := IsFeatureSupportedByServer(discover, featureName, ns);
  }

  /**
   * Exact matching: a server that lists the feature var of one condition
   * confirms that condition and no other, and confirms no action.
   */
  lemma OnlyListedConditionConfirmed(ns: string, listed: string, asked: string, action: string)
    ensures Confirms(Success([QualifiedFeature(ns, ConditionKind, listed)]), QualifiedFeature(ns, ConditionKind, asked))
            <==> asked == listed
    ensures !Confirms(Success([QualifiedFeature(ns, ConditionKind, listed)]), QualifiedFeature(ns, ActionKind, action))
  {
    var info := Success([QualifiedFeature(ns, ConditionKind, listed)]);
    QualifiedFeatureInjective(ns, ConditionKind, listed, asked);
    if asked == listed {
      assert info.features[0] == QualifiedFeature(ns, ConditionKind, asked);
    }
    ActionAndConditionFeaturesDiffer(ns, action, listed);
  }
}
