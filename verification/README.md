# AMP capability negotiation

A Dafny model of the capability-negotiation logic in Smack's `AMPManager`. This logic supports XEP-0079, Advanced Message Processing (AMP). It has two parts:

- **Registrar.** It toggles whether the AMP namespace is among the features a connection advertises in its XEP-0030 disco#info replies. A listener turns advertisement on for every new connection.
- **Capability prober.** It sends a disco#info query to the peer's server on the AMP node. It then looks for the exact feature var `<namespace>?action=<name>` or `<namespace>?condition=<name>`. A failed query counts as "not supported".

Files:

- `disco.dfy` (module `ServiceDiscovery`) holds the collaborators the manager uses:
  - `FeatureRegistry` is a connection's advertised-feature set. It is a class with a mutable `set<string>` and ghost counters of add and remove calls.
  - `DiscoResult` is the outcome of one disco#info round trip: `Failure` or `Success(features)`.
  - `Discovery` maps a node to the peer's answer for that node.
- `amp_manager.dfy` (module `AmpManager`) holds the manager itself. `SetServiceEnabled` and `IsFeatureSupportedByServer` are imperative methods, as in the source: a check-then-act update of the registry, and a loop that returns early. The feature-name builder and the membership query are functions.

The AMP namespace constant and the canonical names of AMP actions are defined outside the manager. The model treats them as parameters: a string `ns`, and a function `actionName` from an action to its name.

## Model

| member | source | states |
|---|---|---|
| AmpManager.Advertised | extensions/src/main/java/org/jivesoftware/smackx/amp/AMPManager.java:57-67 | The requested state decides whether the namespace is in the new advertised set. Every other feature keeps its membership. A set already in the requested state is returned unchanged. |
| AmpManager.IsServiceEnabled | extensions/src/main/java/org/jivesoftware/smackx/amp/AMPManager.java:75-78 | Read-only query: true exactly when the namespace is in the connection's advertised-feature set. |
| AmpManager.SetServiceEnabled | extensions/src/main/java/org/jivesoftware/smackx/amp/AMPManager.java:57-67 | Afterwards the service is enabled iff `enabled`, and the set equals `Advertised(old set)`, so no other feature changes. If the state already matched, the set and both call counters are unchanged. Otherwise exactly one AddFeature (when enabling) or one RemoveFeature (when disabling) is made. |
| AmpManager.SetServiceEnabledTwice | extensions/src/main/java/org/jivesoftware/smackx/amp/AMPManager.java:58-66 | Idempotence: two calls in a row with the same value leave the advertised set of one call. In total they make exactly one add (when enabling a disabled connection) or one remove (when disabling an enabled one), and none when the state already matched; the second call changes nothing. |
| AmpManager.ConnectionCreated | extensions/src/main/java/org/jivesoftware/smackx/amp/AMPManager.java:41-45 | After the new-connection listener runs, the namespace is advertised. The only change to the set is adding the namespace. No remove is made, and one add is made exactly when the namespace was not already advertised. |
| AmpManager.AdvertisedIdempotent | extensions/src/main/java/org/jivesoftware/smackx/amp/AMPManager.java:58-66 | Applying the same request twice gives the same advertised set as applying it once. |
| AmpManager.AdvertisedLastRequestWins | extensions/src/main/java/org/jivesoftware/smackx/amp/AMPManager.java:57-67 | After two requests, the advertised set depends only on the second. For example, enabling then disabling leaves the namespace absent and the rest as it was. |
| AmpManager.QualifiedFeature | extensions/src/main/java/org/jivesoftware/smackx/amp/AMPManager.java:87-101 | The feature var has the byte-exact layout `<ns>?<kind>=<value>`. The length and every segment are pinned down, with no trimming or normalisation. |
| AmpManager.QualifiedFeatureInjective | extensions/src/main/java/org/jivesoftware/smackx/amp/AMPManager.java:101 | Two values of the same kind give the same feature var iff the values are equal. |
| AmpManager.ActionAndConditionFeaturesDiffer | extensions/src/main/java/org/jivesoftware/smackx/amp/AMPManager.java:87-101 | An action's feature var never equals a condition's feature var. |
| AmpManager.IsFeatureSupportedByServer | extensions/src/main/java/org/jivesoftware/smackx/amp/AMPManager.java:105-120 | Returns true iff the query on `node` succeeded and some listed var equals `featureName` exactly. A failed query and an empty list both give false. |
| AmpManager.IsActionSupported | extensions/src/main/java/org/jivesoftware/smackx/amp/AMPManager.java:86-89 | Returns true iff the server's answer on the AMP node confirms `<ns>?action=<name of the action>`. |
| AmpManager.IsConditionSupported | extensions/src/main/java/org/jivesoftware/smackx/amp/AMPManager.java:100-103 | Returns true iff the server's answer on the AMP node confirms `<ns>?condition=<conditionName>`. |
| AmpManager.OnlyListedConditionConfirmed | extensions/src/main/java/org/jivesoftware/smackx/amp/AMPManager.java:100-115 | A server listing only one condition's feature var confirms that condition, no other condition, and no action. |

## Left out

- Registration of the listener at class-load time (lines 40-46) is not modelled. Only the listener's body is modelled, as `ConnectionCreated`.
- The `synchronized` modifier on `setServiceEnabled` is not modelled. Calls are sequential in the model, so there is no concurrency reasoning.
- `ServiceDiscoveryManager.getInstanceFor` and the network round trip of `discoverInfo` are not modelled. The connection's registry is a `FeatureRegistry` argument, and the peer's answers are a `Discovery` argument. Each answer is either a feature list or `Failure`, which stands for `XMPPException`.
- The discarded `connection.getServiceName()` call in `isServiceEnabled` and the `printStackTrace` logging are left out. Neither affects the result.
- `AMPExtension.NAMESPACE` and `AMPExtension.Action.toString()` are not part of this model. They are parameters instead.
- The XML encoding of disco#info stanzas is left out.
- IsActionSupported: a null action is not modelled. In the source, `action.toString()` then throws NullPointerException outside the try block, and the exception reaches the caller. The action type here has no null value.
- IsConditionSupported: a null condition name is not modelled. In the source, Java string concatenation turns it into the literal feature var `<namespace>?condition=null`, which is then queried. The `string` type here has no null value.
