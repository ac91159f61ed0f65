/** The security lists of the cluster network (network/security.py): the rule records
    of the node and Kubernetes API lists, built from the configured subnet CIDRs, and
    `SecurityListManager`, which creates the three lists and keeps them in its fields. */
module Security {
  import opened Wrappers
  import Config
  import Ipv4

  /** The key a path-discovery rule sets: `source` in an ingress rule, `destination`
      in an egress rule. */
  datatype AddressKey = SourceKey | DestinationKey

  datatype IcmpOptions = IcmpOptions(icmpType: int, code: int)

  /** One rule record; a key the source's dictionary does not carry is `None`. */
  datatype Rule = Rule(
    description: string,
    protocol: string,
    source: Option<string>,
    destination: Option<string>,
    destinationType: Option<string>,
    icmpOptions: Option<IcmpOptions>,
    stateless: bool)

  const AnyAddress := "0.0.0.0/0"
  const IcmpProtocol := "1"
  const TcpProtocol := "6"
  const AllProtocols := "all"
  const ServiceCidrBlock := "SERVICE_CIDR_BLOCK"
  const CidrBlock := "CIDR_BLOCK"

  /** ICMP type 3 ("destination unreachable") code 4 ("fragmentation needed"). */
  const FragmentationNeeded := IcmpOptions(3, 4)

  predicate IsIngress(r: Rule) {
    r.source.Some? && r.destination.None? && r.destinationType.None?
  }

  predicate IsEgress(r: Rule) {
    r.destination.Some? && r.source.None?
  }

  /** The address a rule names: its source, or else its destination. */
  function Address(r: Rule): Option<string> {
    if r.source.Some? then r.source else r.destination
  }

  /** Every address a rule of these tables may name. */
  function AllowedAddresses(c: Config.OciConfig): set<string> {
    {Config.NodeSubnetCidrBlock(c), Config.K8sApiSubnetCidrBlock(c), AnyAddress, Config.ServiceCidr}
  }

  /** The destination type, where present, says whether the destination is the service CIDR. */
  predicate DestinationTypeMatches(r: Rule) {
    r.destinationType.Some? ==>
      r.destination.Some? &&
      r.destinationType.value == (if r.destination.value == Config.ServiceCidr then ServiceCidrBlock else CidrBlock)
  }

  /** Neither subnet CIDR text is the service CIDR label. */
  predicate SubnetsAreNotServiceLabel(c: Config.OciConfig) {
    Config.NodeSubnetCidrBlock(c) != Config.ServiceCidr && Config.K8sApiSubnetCidrBlock(c) != Config.ServiceCidr
  }

  /** `path_discovery_rule(key, cidr)`: a stateful ICMP type 3 code 4 rule whose one
      address, under `key`, is `cidr`. */
  function PathDiscoveryRule(key: AddressKey, cidr: string): (r: Rule)
    ensures r.protocol == IcmpProtocol && r.icmpOptions == Some(FragmentationNeeded) && !r.stateless
    ensures key == SourceKey ==> IsIngress(r) && r.source == Some(cidr)
    ensures key == DestinationKey ==> IsEgress(r) && r.destination == Some(cidr) && r.destinationType.None?
  {
    Rule("Path discovery", IcmpProtocol,
      if key == SourceKey then Some(cidr) else None,
      if key == DestinationKey then Some(cidr) else None,
      None, Some(FragmentationNeeded), false)
  }

  /** A stateful ingress rule from `source`. */
  function IngressRule(description: string, protocol: string, source: string): Rule {
    Rule(description, protocol, Some(source), None, None, None, false)
  }

  /** A stateful egress rule to `destination` of the given destination type. */
  function EgressRule(description: string, protocol: string, destination: string, destinationType: string): Rule {
    Rule(description, protocol, None, Some(destination), Some(destinationType), None, false)
  }

  /** `node_tcp_rule`: TCP from the Kubernetes API subnet. */
  function NodeTcpRule(c: Config.OciConfig): (r: Rule)
    ensures IsIngress(r) && !r.stateless && r.protocol == TcpProtocol
    ensures r.source == Some(Config.K8sApiSubnetCidrBlock(c))
  {
    IngressRule("TCP access from Kubernetes Control Plane", TcpProtocol, Config.K8sApiSubnetCidrBlock(c))
  }

  /** `get_node_ingress_rules`. */
  function NodeIngressRules(c: Config.OciConfig): (r: seq<Rule>)
    ensures |r| == 4
    ensures r[0] == PathDiscoveryRule(SourceKey, Config.K8sApiSubnetCidrBlock(c))
    ensures forall i :: 0 <= i < |r| ==> IsIngress(r[i]) && !r[i].stateless
    ensures forall i :: 0 <= i < |r| ==> Address(r[i]).Some? && Address(r[i]).value in AllowedAddresses(c)
  {
    [
      PathDiscoveryRule(SourceKey, Config.K8sApiSubnetCidrBlock(c)),
      NodeTcpRule(c),
      IngressRule("Inbound SSH traffic to worker nodes", TcpProtocol, AnyAddress),
      IngressRule("Allow pods on one worker node to communicate with pods on other worker nodes",
        AllProtocols, Config.NodeSubnetCidrBlock(c))
    ]
  }

  /** `get_node_egress_rules`. */
  function NodeEgressRules(c: Config.OciConfig): (r: seq<Rule>)
    ensures |r| == 5
    ensures r[0] == PathDiscoveryRule(DestinationKey, Config.K8sApiSubnetCidrBlock(c))
    ensures forall i :: 0 <= i < |r| ==> IsEgress(r[i]) && !r[i].stateless
    ensures forall i :: 1 <= i < |r| ==> r[i].destinationType.Some?
    ensures forall i :: 0 <= i < |r| ==> Address(r[i]).Some? && Address(r[i]).value in AllowedAddresses(c)
    ensures SubnetsAreNotServiceLabel(c) ==> forall i :: 0 <= i < |r| ==> DestinationTypeMatches(r[i])
  {
    [
      PathDiscoveryRule(DestinationKey, Config.K8sApiSubnetCidrBlock(c)),
      EgressRule("Allow nodes to communicate with OKE", TcpProtocol, Config.ServiceCidr, ServiceCidrBlock),
      EgressRule("Allow pods on one worker node to communicate with pods on other worker nodes",
        AllProtocols, Config.NodeSubnetCidrBlock(c), CidrBlock),
      EgressRule("Access to Kubernetes API Endpoint", TcpProtocol, Config.K8sApiSubnetCidrBlock(c), CidrBlock),
      EgressRule("Worker Nodes access to Internet", AllProtocols, AnyAddress, CidrBlock)
    ]
  }

  /** `get_k8s_api_ingress_rules`. */
  function K8sApiIngressRules(c: Config.OciConfig): (r: seq<Rule>)
    ensures |r| == 3
    ensures r[0] == PathDiscoveryRule(SourceKey, Config.NodeSubnetCidrBlock(c))
    ensures forall i :: 0 <= i < |r| ==> IsIngress(r[i]) && !r[i].stateless
    ensures forall i :: 0 <= i < |r| ==> Address(r[i]).Some? && Address(r[i]).value in AllowedAddresses(c)
  {
    [
      PathDiscoveryRule(SourceKey, Config.NodeSubnetCidrBlock(c)),
      IngressRule("External access to Kubernetes API endpoint", TcpProtocol, AnyAddress),
      IngressRule("Kubernetes worker to Kubernetes API endpoint communication", TcpProtocol,
        Config.NodeSubnetCidrBlock(c))
    ]
  }

  /** `get_k8s_api_egress_rules`. */
  function K8sApiEgressRules(c: Config.OciConfig): (r: seq<Rule>)
    ensures |r| == 3
    ensures r[0] == PathDiscoveryRule(DestinationKey, Config.NodeSubnetCidrBlock(c))
    ensures forall i :: 0 <= i < |r| ==> IsEgress(r[i]) && !r[i].stateless
    ensures forall i :: 1 <= i < |r| ==> r[i].destinationType.Some?
    ensures forall i :: 0 <= i < |r| ==> Address(r[i]).Some? && Address(r[i]).value in AllowedAddresses(c)
    ensures SubnetsAreNotServiceLabel(c) ==> forall i :: 0 <= i < |r| ==> DestinationTypeMatches(r[i])
  {
    [
      PathDiscoveryRule(DestinationKey, Config.NodeSubnetCidrBlock(c)),
      EgressRule("Allow Kubernetes Control Plane to communicate with OKE", TcpProtocol, Config.ServiceCidr,
        ServiceCidrBlock),
      EgressRule("All traffic to worker nodes", TcpProtocol, Config.NodeSubnetCidrBlock(c), CidrBlock)
    ]
  }

  /** Once the CIDR texts pass validation, neither subnet text is the service label (each
      starts with a digit), so every destination type of the egress tables is right. */
  lemma ValidatedDestinationTypes(c: Config.OciConfig)
    requires Config.CidrValidation(c).Pass?
    ensures SubnetsAreNotServiceLabel(c)
    ensures forall i :: 0 <= i < |NodeEgressRules(c)| ==> DestinationTypeMatches(NodeEgressRules(c)[i])
    ensures forall i :: 0 <= i < |K8sApiEgressRules(c)| ==> DestinationTypeMatches(K8sApiEgressRules(c)[i])
  {
    var node, api := Config.NodeSubnetCidrBlock(c), Config.K8sApiSubnetCidrBlock(c);
    assert Config.ParsedCidrs(c).Ok?;
    assert Ipv4.ParsePrefix(node).Ok? && Ipv4.ParsePrefix(api).Ok?;
    Ipv4.ParsedTextStartsWithDigit(node);
    Ipv4.ParsedTextStartsWithDigit(api);
    assert Config.ServiceCidr[0] == 'a';
    assert SubnetsAreNotServiceLabel(c);
  }

  /** Mirror symmetry: the node lists' path-discovery rules name the API subnet, and the
      API lists' name the node subnet, so swapping the two subnet CIDRs swaps them. */
  lemma PathDiscoveryMirror(c: Config.OciConfig, swapped: Config.OciConfig)
    requires Config.NodeSubnetCidrBlock(swapped) == Config.K8sApiSubnetCidrBlock(c)
    requires Config.K8sApiSubnetCidrBlock(swapped) == Config.NodeSubnetCidrBlock(c)
    ensures NodeIngressRules(c)[0] == K8sApiIngressRules(swapped)[0]
    ensures NodeEgressRules(c)[0] == K8sApiEgressRules(swapped)[0]
    ensures K8sApiIngressRules(c)[0] == NodeIngressRules(swapped)[0]
    ensures K8sApiEgressRules(c)[0] == NodeEgressRules(swapped)[0]
  {
  }

  /** The VCN a security list belongs to, known to this model only by its id. */
  datatype VcnHandle = VcnHandle(id: nat)

  /** The arguments of one security-list resource; `None` rule sets are left to the
      provider's defaults. */
  datatype SecurityList = SecurityList(
    resourceName: string,
    displayName: string,
    compartmentId: string,
    vcnId: nat,
    ingressRules: Option<seq<Rule>>,
    egressRules: Option<seq<Rule>>)

  /** `create_security_list`: the resource and display name are both `name`, the
      compartment is the configured compartment id and the VCN is `vcn`. */
  function NewSecurityList(c: Config.OciConfig, vcn: VcnHandle, name: string,
                           ingress: Option<seq<Rule>>, egress: Option<seq<Rule>>): (l: SecurityList)
    requires Config.HasSecrets(c)
    ensures l.resourceName == name && l.displayName == name
    ensures l.compartmentId == Config.CompartmentId(c) && l.vcnId == vcn.id
    ensures l.ingressRules == ingress && l.egressRules == egress
  {
    SecurityList(name, name, Config.CompartmentId(c), vcn.id, ingress, egress)
  }

  const NodeListName := "oke-node-security-list"
  const K8sApiListName := "oke-k8s-api-security-list"
  const ServiceLbListName := "oke-service-lb-security-list"

  /** `create_node_security_list`. */
  function NodeSecurityList(c: Config.OciConfig, vcn: VcnHandle): (l: SecurityList)
    requires Config.HasSecrets(c)
    ensures l.resourceName == l.displayName == NodeListName
    ensures l.compartmentId == Config.CompartmentId(c) && l.vcnId == vcn.id
    ensures l.ingressRules == Some(NodeIngressRules(c)) && l.egressRules == Some(NodeEgressRules(c))
  {
    NewSecurityList(c, vcn, NodeListName, Some(NodeIngressRules(c)), Some(NodeEgressRules(c)))
  }

  /** `create_k8s_api_security_list`. */
  function K8sApiSecurityList(c: Config.OciConfig, vcn: VcnHandle): (l: SecurityList)
    requires Config.HasSecrets(c)
    ensures l.resourceName == l.displayName == K8sApiListName
    ensures l.compartmentId == Config.CompartmentId(c) && l.vcnId == vcn.id
    ensures l.ingressRules == Some(K8sApiIngressRules(c)) && l.egressRules == Some(K8sApiEgressRules(c))
  {
    NewSecurityList(c, vcn, K8sApiListName, Some(K8sApiIngressRules(c)), Some(K8sApiEgressRules(c)))
  }

  /** `create_service_lb_security_list`: a list with neither rule set. */
  function ServiceLbSecurityList(c: Config.OciConfig, vcn: VcnHandle): (l: SecurityList)
    requires Config.HasSecrets(c)
    ensures l.resourceName == l.displayName == ServiceLbListName
    ensures l.compartmentId == Config.CompartmentId(c) && l.vcnId == vcn.id
    ensures l.ingressRules.None? && l.egressRules.None?
  {
    NewSecurityList(c, vcn, ServiceLbListName, None, None)
  }

  /** The three lists share the compartment and the VCN, have distinct names, and only
      the node and API lists carry rules. */
  lemma SecurityListsShape(c: Config.OciConfig, vcn: VcnHandle)
    requires Config.HasSecrets(c)
    ensures var node, api, lb := NodeSecurityList(c, vcn), K8sApiSecurityList(c, vcn), ServiceLbSecurityList(c, vcn);
      node.compartmentId == api.compartmentId == lb.compartmentId == Config.CompartmentId(c) &&
      node.vcnId == api.vcnId == lb.vcnId == vcn.id &&
      node.displayName != api.displayName && api.displayName != lb.displayName && node.displayName != lb.displayName &&
      |node.ingressRules.value| == 4 && |node.egressRules.value| == 5 &&
      |api.ingressRules.value| == 3 && |api.egressRules.value| == 3 &&
      lb.ingressRules.None? && lb.egressRules.None?
  {
    assert NodeListName[4] != K8sApiListName[4] && K8sApiListName[4] != ServiceLbListName[4];
    assert NodeListName[4] != ServiceLbListName[4];
  }

  /** The security lists of one VCN. The configuration the source reads from its
      imported `config` module is held here as `config`. */
  class SecurityListManager {
    const vcn: VcnHandle
    const config: Config.OciConfig
    var nodeSecurityList: Option<SecurityList>
    var k8sApiSecurityList: Option<SecurityList>
    var serviceLbSecurityList: Option<SecurityList>

    /** No list has been created yet. */
    constructor (vcn: VcnHandle, config: Config.OciConfig)
      ensures this.vcn == vcn && this.config == config
      ensures nodeSecurityList.None? && k8sApiSecurityList.None? && serviceLbSecurityList.None?
    {
      this.vcn := vcn;
      this.config := config;
      nodeSecurityList := None;
      k8sApiSecurityList := None;
      serviceLbSecurityList := None;
    }

    /** `create_all_security_lists`: create the node, API and service load balancer lists
        in that order, keep each in its field and return the three. */
    method CreateAllSecurityLists() returns (node: SecurityList, api: SecurityList, lb: SecurityList)
      requires Config.HasSecrets(config)
      modifies this
      ensures node == NodeSecurityList(config, vcn)
      ensures api == K8sApiSecurityList(config, vcn)
      ensures lb == ServiceLbSecurityList(config, vcn)
      ensures nodeSecurityList == Some(node) && k8sApiSecurityList == Some(api) && serviceLbSecurityList == Some(lb)
    {
      nodeSecurityList := Some(NodeSecurityList(config, vcn));
      k8sApiSecurityList := Some(K8sApiSecurityList(config, vcn));
      serviceLbSecurityList := Some(ServiceLbSecurityList(config, vcn));
      node, api, lb := nodeSecurityList.value, k8sApiSecurityList.value, serviceLbSecurityList.value;
    }
  }
}
