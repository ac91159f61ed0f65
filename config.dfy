/** The stack configuration of `OCIConfig` (config.py): settings read from the
    Pulumi configuration with `or`-defaults, the required-secret check, the region
    table, the settings summary and the CIDR validator. */
module Config {
  import opened Wrappers
  import Decimal
  import Ipv4

  /** What the Pulumi configuration holds for the stack: the text of every key that is set. */
  type Store = map<string, string>

  /** The `OCIConfig` object; its only state is the configuration it reads. */
  datatype OciConfig = OciConfig(store: Store)

  /** The exceptions the core raises. */
  datatype ConfigError =
    | MissingConfig(keys: seq<string>)                       // required secrets not set
    | ConfigType(key: string)                                // `get_int` on text that is not an integer
    | InvalidCidr(text: string, reason: Ipv4.ParseError)     // `IPv4Network(text)` raised
    | OutsideVcn(subnet: Ipv4.Network, vcn: Ipv4.Network)    // a subnet is not a subnet of the VCN
    | Overlap(first: Ipv4.Network, second: Ipv4.Network)     // two subnets overlap

  // ---------------------------------------------------------------------------
  // Required secrets
  // ---------------------------------------------------------------------------

  const RequiredSecrets: seq<string> := ["compartment_id", "ssh_public_key"]

  /** The keys of `keys` that the store does not set, in the order of `keys`. */
  function MissingKeys(keys: seq<string>, store: Store): (r: seq<string>)
    ensures forall k :: k in r <==> k in keys && k !in store
    ensures |r| <= |keys|
  {
    if keys == [] then []
    else
      var last := keys[|keys| - 1];
      MissingKeys(keys[..|keys| - 1], store) + (if last !in store then [last] else [])
  }

  /** `_validate_required_configs`: `require_secret` raises exactly when the key is not
      set (an empty text is set), so every unset required key is collected in order
      and one error names them all. */
  method ValidateRequiredConfigs(store: Store) returns (r: Outcome<ConfigError>)
    ensures r == Pass <==> "compartment_id" in store && "ssh_public_key" in store
    ensures r.Fail? ==> r.error == MissingConfig(MissingKeys(RequiredSecrets, store))
  {
    var missing: seq<string> := [];
    for i := 0 to |RequiredSecrets|
      invariant missing == MissingKeys(RequiredSecrets[..i], store)
    {
      var key := RequiredSecrets[i];
      if key !in store {
        missing := missing + [key];
      }
      assert RequiredSecrets[..i + 1][..i] == RequiredSecrets[..i];
    }
    assert RequiredSecrets[..|RequiredSecrets|] == RequiredSecrets;
    if missing != [] {
      return Fail(MissingConfig(missing));
    }
    assert "compartment_id" in RequiredSecrets && "ssh_public_key" in RequiredSecrets;
    return Pass;
  }

  /** The missing secrets are listed compartment first, then SSH key, each only when unset. */
  lemma MissingSecretsInOrder(store: Store)
    ensures MissingKeys(RequiredSecrets, store) ==
      (if "compartment_id" !in store then ["compartment_id"] else []) +
      (if "ssh_public_key" !in store then ["ssh_public_key"] else [])
  {
    assert RequiredSecrets[..1] == ["compartment_id"];
    assert RequiredSecrets[..1][..0] == [];
  }

  /** `OCIConfig()`: the object exists only when both secrets are set. */
  method NewOciConfig(store: Store) returns (r: Result<OciConfig, ConfigError>)
    ensures r.Ok? <==> "compartment_id" in store && "ssh_public_key" in store
    ensures r.Ok? ==> r.value.store == store
    ensures r.Err? ==> r.error == MissingConfig(MissingKeys(RequiredSecrets, store))
  {
    var check := ValidateRequiredConfigs(store);
    if check.Fail? {
      return Err(check.error);
    }
    return Ok(OciConfig(store));
  }

  predicate HasSecrets(c: OciConfig) {
    "compartment_id" in c.store && "ssh_public_key" in c.store
  }

  /** `compartment_id`: the secret's text; it is set in every constructed `OCIConfig`. */
  function CompartmentId(c: OciConfig): string
    requires HasSecrets(c)
  {
    c.store["compartment_id"]
  }

  // ---------------------------------------------------------------------------
  // Text settings with `or`-defaults
  // ---------------------------------------------------------------------------

  /** A text property: the configuration key it reads and the default after `or`. */
  datatype TextSetting = TextSetting(key: string, default: string)

  const RegionSetting := TextSetting("region", "ap-osaka-1")
  const ProfileSetting := TextSetting("profile", "DEFAULT")
  const VcnCidrSetting := TextSetting("vcn_cidr_block", "10.0.0.0/16")
  const KubernetesVersionSetting := TextSetting("kubernetes_version", "v1.32.1")
  const VcnDisplayNameSetting := TextSetting("vcn_display_name", "oke-vcn-mgmt")
  const InternetGatewayDisplayNameSetting := TextSetting("igw_display_name", "oke-igw-mgmt")
  const NatGatewayDisplayNameSetting := TextSetting("ngw_display_name", "oke-ngw-mgmt")
  const ServiceGatewayDisplayNameSetting := TextSetting("sgw_display_name", "oke-sgw-mgmt")
  const ServiceLbSubnetCidrSetting := TextSetting("service_lb_subnet_cidr", "10.0.20.0/24")
  const NodeSubnetCidrSetting := TextSetting("node_subnet_cidr", "10.0.10.0/24")
  const K8sApiSubnetCidrSetting := TextSetting("k8s_api_subnet_cidr", "10.0.0.0/28")
  const NodePoolNameSetting := TextSetting("node_pool_name", "pool1")
  const NodeShapeSetting := TextSetting("node_shape", "VM.Standard.A1.Flex")

  /** The fixed service CIDR label; it is not read from the configuration. */
  const ServiceCidr := "all-kix-services-in-oracle-services-network"

  /** `config.get(key) or default`: a set, non-empty text wins; an unset key or an
      empty text falls back to the default, so the result is never empty when the
      default is not. */
  function Text(c: OciConfig, s: TextSetting): (r: string)
    ensures s.key in c.store && c.store[s.key] != "" ==> r == c.store[s.key]
    ensures s.key !in c.store || c.store[s.key] == "" ==> r == s.default
    ensures s.default != "" ==> r != ""
  {
    if s.key in c.store && c.store[s.key] != "" then c.store[s.key] else s.default
  }

  function Region(c: OciConfig): string { Text(c, RegionSetting) }
  function VcnCidrBlock(c: OciConfig): string { Text(c, VcnCidrSetting) }
  function ServiceLbSubnetCidrBlock(c: OciConfig): string { Text(c, ServiceLbSubnetCidrSetting) }
  function NodeSubnetCidrBlock(c: OciConfig): string { Text(c, NodeSubnetCidrSetting) }
  function K8sApiSubnetCidrBlock(c: OciConfig): string { Text(c, K8sApiSubnetCidrSetting) }

  // ---------------------------------------------------------------------------
  // Integer settings with `or`-defaults
  // ---------------------------------------------------------------------------

  /** An integer property: the configuration key it reads and the default after `or`. */
  datatype IntSetting = IntSetting(key: string, default: int)

  const NodePoolSizeSetting := IntSetting("node_pool_size", 2)
  const NodeMemoryGbsSetting := IntSetting("node_memory_gbs", 12)
  const NodeOcpusSetting := IntSetting("node_ocpus", 2)

  /** Python's `int(text)` for an optional sign followed by ASCII digits. */
  function ParseInt(t: string): (r: Option<int>)
    ensures r.Some? ==> t != [] && (Decimal.IsDigit(t[0]) || t[0] == '-' || t[0] == '+')
    ensures r.Some? && t[0] == '-' ==> r.value <= 0
    ensures r.Some? && t[0] != '-' ==> r.value >= 0
  {
    if t != [] && (t[0] == '-' || t[0] == '+') then
      if |t| > 1 && Decimal.AllDigits(t[1..]) then
        var magnitude: int := Decimal.Value(t[1..]);
        Some(if t[0] == '-' then -magnitude else magnitude)
      else None
    else if t != [] && Decimal.AllDigits(t) then Some(Decimal.Value(t))
    else None
  }

  /** Python's `str(n)` for an integer. */
  function RenderInt(n: int): string {
    if n < 0 then "-" + Decimal.Render(-n) else Decimal.Render(n)
  }

  /** Every integer's text reads back as that integer. */
  lemma ParseIntOfRender(n: int)
    ensures ParseInt(RenderInt(n)) == Some(n)
  {
    var t := RenderInt(n);
    if n < 0 {
      var digits := Decimal.Render(-n);
      Decimal.ValueOfRender(-n);
      assert t[0] == '-' && t[1..] == digits;
      assert Decimal.AllDigits(t[1..]);
    } else {
      Decimal.ValueOfRender(n);
      assert Decimal.IsDigit(t[0]);
    }
  }

  /** `config.get_int(key)`: unset is `None`, integer text is its value, other text
      raises `ConfigTypeError`. */
  function GetInt(c: OciConfig, key: string): (r: Result<Option<int>, ConfigError>)
    ensures r.Err? <==> key in c.store && ParseInt(c.store[key]).None?
    ensures r == Ok(None) <==> key !in c.store
    ensures key in c.store && ParseInt(c.store[key]).Some? ==> r == Ok(Some(ParseInt(c.store[key]).value))
  {
    if key !in c.store then Ok(None)
    else match ParseInt(c.store[key])
      case None => Err(ConfigType(key))
      case Some(v) => Ok(Some(v))
  }

  /** `config.get_int(key) or default`: unset or 0 gives the default. */
  function IntValue(c: OciConfig, s: IntSetting): (r: Result<int, ConfigError>)
    ensures r.Err? <==> s.key in c.store && ParseInt(c.store[s.key]).None?
    ensures r.Err? ==> r.error == ConfigType(s.key)
    ensures s.key !in c.store ==> r == Ok(s.default)
    ensures s.key in c.store && ParseInt(c.store[s.key]).Some? ==>
      r == Ok(if ParseInt(c.store[s.key]).value == 0 then s.default else ParseInt(c.store[s.key]).value)
    ensures r.Ok? && s.default != 0 ==> r.value != 0
  {
    match GetInt(c, s.key)
    case Err(e) => Err(e)
    case Ok(None) => Ok(s.default)
    case Ok(Some(v)) => Ok(if v == 0 then s.default else v)
  }

  /** An integer setting written as the text of `n` reads as `n`, except that 0 (like an
      unset key) yields the default. */
  lemma IntSettingOr(c: OciConfig, s: IntSetting, n: int)
    requires s.key in c.store && c.store[s.key] == RenderInt(n)
    ensures IntValue(c, s) == Ok(if n == 0 then s.default else n)
  {
    ParseIntOfRender(n);
  }

  // ---------------------------------------------------------------------------
  // Region table
  // ---------------------------------------------------------------------------

  datatype RegionInfo = RegionInfo(availabilityDomain: string, serviceId: string, imageId: string)

  const DefaultRegion := "ap-osaka-1"

  const RegionTable: map<string, RegionInfo> := map[
    "ap-osaka-1" := RegionInfo(
      "PCHh:AP-OSAKA-1-AD-1",
      "ocid1.service.oc1.ap-osaka-1.aaaaaaaanpw2x646vasmcdktlznzhf7mwmcgf4hhmw5zepgspmseokxjyj4q",
      "ocid1.image.oc1.ap-osaka-1.aaaaaaaa4xyxytwqlwbxp5rp5qvhi5snlomtjgyavitu3m36bp4neknjsloa"),
    "ap-seoul-1" := RegionInfo(
      "YnyK:AP-SEOUL-1-AD-1",
      "ocid1.service.oc1.ap-seoul-1.aaaaaaaac4kj7ddh5y7kfqbfzc6hzxfazezmvr4n6k7rqt7ifrfcjxnb2y4q",
      "ocid1.image.oc1.ap-seoul-1.aaaaaaaas5x3bpjnktaajrr7mvqjr3kh4zegqlqeqe5wbql4dqq4q2qj2o5a"),
    "ap-tokyo-1" := RegionInfo(
      "bJmJ:AP-TOKYO-1-AD-1",
      "ocid1.service.oc1.ap-tokyo-1.aaaaaaaanp2x646vasmcdktlznzhf7mwmcgf4hhmw5zepgspmseokxjyj4q",
      "ocid1.image.oc1.ap-tokyo-1.aaaaaaaa4xyxytwqlwbxp5rp5qvhi5snlomtjgyavitu3m36bp4neknjsloa"),
    "us-ashburn-1" := RegionInfo(
      "ZwDO:US-ASHBURN-1-AD-1",
      "ocid1.service.oc1.us-ashburn-1.aaaaaaaanp2x646vasmcdktlznzhf7mwmcgf4hhmw5zepgspmseokxjyj4q",
      "ocid1.image.oc1.us-ashburn-1.aaaaaaaa4xyxytwqlwbxp5rp5qvhi5snlomtjgyavitu3m36bp4neknjsloa"),
    "us-phoenix-1" := RegionInfo(
      "RWDJ:US-PHOENIX-1-AD-1",
      "ocid1.service.oc1.us-phoenix-1.aaaaaaaanp2x646vasmcdktlznzhf7mwmcgf4hhmw5zepgspmseokxjyj4q",
      "ocid1.image.oc1.us-phoenix-1.aaaaaaaa4xyxytwqlwbxp5rp5qvhi5snlomtjgyavitu3m36bp4neknjsloa")
  ]

  /** `region_config`: the table entry of the configured region, or the default
      region's entry (with a logged warning) when the region is not in the table. */
  function RegionConfig(c: OciConfig): (r: RegionInfo)
    ensures r in RegionTable.Values
  {
    if Region(c) in RegionTable then RegionTable[Region(c)] else RegionTable[DefaultRegion]
  }

  /** Whether `region_config` logs the "no settings for region" warning. */
  predicate RegionWarns(c: OciConfig)
    ensures RegionWarns(c) ==> Region(c) != DefaultRegion && RegionConfig(c) == RegionTable[DefaultRegion]
  {
    Region(c) !in RegionTable
  }

  function AvailabilityDomain(c: OciConfig): string { RegionConfig(c).availabilityDomain }
  function ServiceId(c: OciConfig): string { RegionConfig(c).serviceId }
  function ImageId(c: OciConfig): string { RegionConfig(c).imageId }

  /** A known region gets its own entry; an unknown one gets the default region's entry
      and a warning, never an error; an unset or empty region is the default region. */
  lemma RegionFallback(c: OciConfig)
    ensures Region(c) in RegionTable ==> RegionConfig(c) == RegionTable[Region(c)] && !RegionWarns(c)
    ensures Region(c) !in RegionTable ==> RegionConfig(c) == RegionTable[DefaultRegion] && RegionWarns(c)
    ensures "region" !in c.store || c.store["region"] == "" ==>
      Region(c) == DefaultRegion && RegionConfig(c) == RegionTable[DefaultRegion] && !RegionWarns(c)
  {
  }

  /** The three region accessors read one and the same table entry. */
  lemma RegionAccessorsAgree(c: OciConfig)
    ensures exists name | name in RegionTable ::
      (name == Region(c) || name == DefaultRegion) &&
      RegionTable[name] == RegionInfo(AvailabilityDomain(c), ServiceId(c), ImageId(c))
  {
    var name := if Region(c) in RegionTable then Region(c) else DefaultRegion;
    assert RegionTable[name] == RegionInfo(AvailabilityDomain(c), ServiceId(c), ImageId(c));
  }

  // ---------------------------------------------------------------------------
  // Settings summary
  // ---------------------------------------------------------------------------

  /** A value of the settings summary: text or integer. */
  datatype ConfigValue = Str(text: string) | Number(n: int)

  const SummaryKeys: set<string> := {
    "region", "profile", "availability_domain", "vcn_cidr_block", "kubernetes_version",
    "vcn_display_name", "service_lb_subnet_cidr_block", "node_subnet_cidr_block",
    "k8s_api_subnet_cidr_block", "node_pool_name", "node_pool_size", "node_shape",
    "node_memory_gbs", "node_ocpus"
  }

  /** The error of the first integer setting, in the order `get_all_config` reads them,
      whose text is not an integer. */
  function FirstIntError(c: OciConfig): ConfigError {
    if IntValue(c, NodePoolSizeSetting).Err? then ConfigType("node_pool_size")
    else if IntValue(c, NodeMemoryGbsSetting).Err? then ConfigType("node_memory_gbs")
    else ConfigType("node_ocpus")
  }

  /** `get_all_config`: fourteen non-secret settings; the first integer setting that is
      not an integer (pool size, then memory, then OCPUs) raises instead. */
  function AllConfig(c: OciConfig): (r: Result<map<string, ConfigValue>, ConfigError>)
    ensures r.Ok? ==> r.value.Keys == SummaryKeys
    ensures r.Ok? ==> forall k | k in RequiredSecrets :: k !in r.value
    ensures r.Ok? <==>
      IntValue(c, NodePoolSizeSetting).Ok? && IntValue(c, NodeMemoryGbsSetting).Ok? && IntValue(c, NodeOcpusSetting).Ok?
    ensures r.Err? ==> r.error == FirstIntError(c)
    ensures r.Ok? ==> r.value == Summary(c, IntValue(c, NodePoolSizeSetting).value,
      IntValue(c, NodeMemoryGbsSetting).value, IntValue(c, NodeOcpusSetting).value)
  {
    var size :- IntValue(c, NodePoolSizeSetting);
    var memory :- IntValue(c, NodeMemoryGbsSetting);
    var ocpus :- IntValue(c, NodeOcpusSetting);
    SecretsNotSummarised();
    Ok(Summary(c, size, memory, ocpus))
  }

  lemma SecretsNotSummarised()
    ensures forall k | k in RequiredSecrets :: k !in SummaryKeys
  {
  }

  /** The dictionary literal of `get_all_config`, once the integer settings are read. */
  function Summary(c: OciConfig, size: int, memory: int, ocpus: int): (m: map<string, ConfigValue>)
    ensures m.Keys == SummaryKeys
  {
    map[
      "region" := Str(Region(c)),
      "profile" := Str(Text(c, ProfileSetting)),
      "availability_domain" := Str(AvailabilityDomain(c)),
      "vcn_cidr_block" := Str(VcnCidrBlock(c)),
      "kubernetes_version" := Str(Text(c, KubernetesVersionSetting)),
      "vcn_display_name" := Str(Text(c, VcnDisplayNameSetting)),
      "service_lb_subnet_cidr_block" := Str(ServiceLbSubnetCidrBlock(c)),
      "node_subnet_cidr_block" := Str(NodeSubnetCidrBlock(c)),
      "k8s_api_subnet_cidr_block" := Str(K8sApiSubnetCidrBlock(c)),
      "node_pool_name" := Str(Text(c, NodePoolNameSetting)),
      "node_pool_size" := Number(size),
      "node_shape" := Str(Text(c, NodeShapeSetting)),
      "node_memory_gbs" := Number(memory),
      "node_ocpus" := Number(ocpus)
    ]
  }

  // ---------------------------------------------------------------------------
  // CIDR validation
  // ---------------------------------------------------------------------------

  /** `IPv4Network(text)`; a parse failure is one more `ValueError` of the validator. */
  function ParseCidr(text: string): Result<Ipv4.Network, ConfigError> {
    match Ipv4.ParsePrefix(text)
    case Ok(p) => Ok(p)
    case Err(reason) => Err(InvalidCidr(text, reason))
  }

  /** The four networks in the order `validate_cidr_blocks` builds them: the VCN, then
      the subnets service load balancer, node, Kubernetes API. */
  function ParsedCidrs(c: OciConfig): Result<(Ipv4.Network, seq<Ipv4.Network>), ConfigError> {
    var vcn :- ParseCidr(VcnCidrBlock(c));
    var lb :- ParseCidr(ServiceLbSubnetCidrBlock(c));
    var node :- ParseCidr(NodeSubnetCidrBlock(c));
    var api :- ParseCidr(K8sApiSubnetCidrBlock(c));
    Ok((vcn, [lb, node, api]))
  }

  /** The first index at or after `i` of a subnet that is not a subnet of the VCN. */
  function OutsideFrom(vcn: Ipv4.Network, subnets: seq<Ipv4.Network>, i: nat): (r: Option<nat>)
    requires i <= |subnets|
    ensures r.Some? ==> i <= r.value < |subnets| && !Ipv4.SubnetOf(subnets[r.value], vcn)
    ensures r.Some? ==> forall k :: i <= k < r.value ==> Ipv4.SubnetOf(subnets[k], vcn)
    ensures r.None? ==> forall k :: i <= k < |subnets| ==> Ipv4.SubnetOf(subnets[k], vcn)
    decreases |subnets| - i
  {
    if i == |subnets| then None
    else if !Ipv4.SubnetOf(subnets[i], vcn) then Some(i)
    else OutsideFrom(vcn, subnets, i + 1)
  }

  /** Pair (a, b), a < b < n, is visited at or after pair (i, j) by the nested loops
      (outer index a, inner index b > a). */
  predicate PairFrom(n: int, i: int, j: int, a: int, b: int) {
    0 <= a < b < n && (i < a || (a == i && j <= b))
  }

  /** The nested loops visit pair (a, b) before pair (a', b'). */
  predicate PairBefore(a: int, b: int, a': int, b': int) {
    a < a' || (a == a' && b < b')
  }

  /** The first overlapping pair of subnets that the nested loops visit at or after (i, j). */
  function OverlapFrom(subnets: seq<Ipv4.Network>, i: nat, j: nat): (r: Option<(nat, nat)>)
    requires i < j
    ensures r.Some? ==> PairFrom(|subnets|, i, j, r.value.0, r.value.1)
    ensures r.Some? ==> Ipv4.Overlaps(subnets[r.value.0], subnets[r.value.1])
    ensures r.Some? ==> forall a, b :: PairFrom(|subnets|, i, j, a, b) && PairBefore(a, b, r.value.0, r.value.1) ==>
      !Ipv4.Overlaps(subnets[a], subnets[b])
    ensures r.None? ==> forall a, b :: PairFrom(|subnets|, i, j, a, b) ==> !Ipv4.Overlaps(subnets[a], subnets[b])
    decreases |subnets| - i, |subnets| - j
  {
    if i + 1 >= |subnets| then
      assert forall a, b :: !PairFrom(|subnets|, i, j, a, b);
      None
    else if j >= |subnets| then
      assert forall a, b :: PairFrom(|subnets|, i, j, a, b) <==> PairFrom(|subnets|, i + 1, i + 2, a, b);
      OverlapFrom(subnets, i + 1, i + 2)
    else if Ipv4.Overlaps(subnets[i], subnets[j]) then Some((i, j))
    else
      assert forall a, b :: PairFrom(|subnets|, i, j, a, b) <==> (a == i && b == j) || PairFrom(|subnets|, i, j + 1, a, b);
      OverlapFrom(subnets, i, j + 1)
  }

  /** Every subnet is a subnet of the VCN. */
  predicate AllInside(vcn: Ipv4.Network, subnets: seq<Ipv4.Network>) {
    forall k :: 0 <= k < |subnets| ==> Ipv4.SubnetOf(subnets[k], vcn)
  }

  /** No two subnets overlap. */
  predicate PairwiseDisjoint(subnets: seq<Ipv4.Network>) {
    forall a, b :: 0 <= a < b < |subnets| ==> !Ipv4.Overlaps(subnets[a], subnets[b])
  }

  /** The verdict of the two checks of `validate_cidr_blocks` on parsed networks: every
      containment check runs before any overlap check, and the first violation is reported. */
  function CidrVerdict(vcn: Ipv4.Network, subnets: seq<Ipv4.Network>): (r: Outcome<ConfigError>)
    ensures r == Pass <==> AllInside(vcn, subnets) && PairwiseDisjoint(subnets)
    ensures !AllInside(vcn, subnets) ==> r.Fail? && r.error.OutsideVcn?
  {
    match OutsideFrom(vcn, subnets, 0)
    case Some(i) => Fail(OutsideVcn(subnets[i], vcn))
    case None =>
      match OverlapFrom(subnets, 0, 1)
      case Some((a, b)) => Fail(Overlap(subnets[a], subnets[b]))
      case None =>
        assert forall a, b :: 0 <= a < b < |subnets| ==> PairFrom(|subnets|, 0, 1, a, b);
        Pass
  }

  /** `text` is the text of one of the four CIDR settings. */
  predicate IsCidrSetting(c: OciConfig, text: string) {
    text == VcnCidrBlock(c) || text == ServiceLbSubnetCidrBlock(c) ||
    text == NodeSubnetCidrBlock(c) || text == K8sApiSubnetCidrBlock(c)
  }

  /** A failed parse is an `InvalidCidr` error naming the text. */
  lemma ParseCidrError(text: string)
    ensures ParseCidr(text).Err? ==> ParseCidr(text).error.InvalidCidr? && ParseCidr(text).error.text == text
  {
  }

  /** What `validate_cidr_blocks` ends with: success, or the `ValueError` it logs and re-raises. */
  function CidrValidation(c: OciConfig): Outcome<ConfigError> {
    match ParsedCidrs(c)
    case Err(e) => Fail(e)
    case Ok((vcn, subnets)) => CidrVerdict(vcn, subnets)
  }

  /** Validation fails only with the errors `validate_cidr_blocks` raises: a CIDR text
      that does not parse (naming one of the four settings' texts), a subnet outside the
      VCN, or two overlapping subnets. */
  lemma ValidationErrorKinds(c: OciConfig)
    ensures CidrValidation(c).Fail? ==>
      CidrValidation(c).error.InvalidCidr? || CidrValidation(c).error.OutsideVcn? || CidrValidation(c).error.Overlap?
    ensures CidrValidation(c).Fail? && CidrValidation(c).error.InvalidCidr? ==>
      IsCidrSetting(c, CidrValidation(c).error.text)
  {
    var vcn, lb, node, api := VcnCidrBlock(c), ServiceLbSubnetCidrBlock(c), NodeSubnetCidrBlock(c), K8sApiSubnetCidrBlock(c);
    ParseCidrError(vcn);
    ParseCidrError(lb);
    ParseCidrError(node);
    ParseCidrError(api);
    if ParsedCidrs(c).Ok? {
      var (v, subnets) := ParsedCidrs(c).value;
      assert CidrValidation(c) == CidrVerdict(v, subnets);
    }
  }

  /** `validate_cidr_blocks`: parse the four CIDR texts, check each subnet against the VCN,
      then check each pair of subnets, stopping at the first violation. */
  method ValidateCidrBlocks(c: OciConfig) returns (r: Outcome<ConfigError>)
    ensures r == CidrValidation(c)
  {
    var parsed := ParsedCidrs(c);
    if parsed.Err? {
      return Fail(parsed.error);
    }
    r := CheckNetworks(parsed.value.0, parsed.value.1);
  }

  /** The two loops of `validate_cidr_blocks` over the parsed networks: containment of
      each subnet in list order, then each pair in the order of the nested loops. */
  method CheckNetworks(vcn: Ipv4.Network, subnets: seq<Ipv4.Network>) returns (r: Outcome<ConfigError>)
    ensures r == CidrVerdict(vcn, subnets)
  {
    var i := 0;
    while i < |subnets|
      invariant 0 <= i <= |subnets|
      invariant OutsideFrom(vcn, subnets, i) == OutsideFrom(vcn, subnets, 0)
    {
      if !Ipv4.SubnetOf(subnets[i], vcn) {
        return Fail(OutsideVcn(subnets[i], vcn));
      }
      i := i + 1;
    }

    i := 0;
    while i < |subnets|
      invariant 0 <= i <= |subnets|
      invariant OverlapFrom(subnets, i, i + 1) == OverlapFrom(subnets, 0, 1)
    {
      var j := i + 1;
      while j < |subnets|
        invariant i + 1 <= j <= |subnets|
        invariant OverlapFrom(subnets, i, j) == OverlapFrom(subnets, 0, 1)
      {
        if Ipv4.Overlaps(subnets[i], subnets[j]) {
          return Fail(Overlap(subnets[i], subnets[j]));
        }
        j := j + 1;
      }
      i := i + 1;
    }
    return Pass;
  }

  /** When some subnet lies outside the VCN, the error names the first such subnet in
      list order, even if two subnets also overlap. */
  lemma ContainmentReportedFirst(vcn: Ipv4.Network, subnets: seq<Ipv4.Network>)
    requires !AllInside(vcn, subnets)
    ensures exists i ::
      && 0 <= i < |subnets|
      && CidrVerdict(vcn, subnets) == Fail(OutsideVcn(subnets[i], vcn))
      && !Ipv4.SubnetOf(subnets[i], vcn)
      && forall k :: 0 <= k < i ==> Ipv4.SubnetOf(subnets[k], vcn)
  {
    var i := OutsideFrom(vcn, subnets, 0).value;
    assert CidrVerdict(vcn, subnets) == Fail(OutsideVcn(subnets[i], vcn));
  }

  /** When every subnet is inside the VCN but two overlap, the error names the first
      overlapping pair in the order the nested loops visit pairs. */
  lemma FirstOverlapReported(vcn: Ipv4.Network, subnets: seq<Ipv4.Network>)
    requires AllInside(vcn, subnets) && !PairwiseDisjoint(subnets)
    ensures exists a, b ::
      && 0 <= a < b < |subnets|
      && CidrVerdict(vcn, subnets) == Fail(Overlap(subnets[a], subnets[b]))
      && Ipv4.Overlaps(subnets[a], subnets[b])
      && forall a', b' :: 0 <= a' < b' < |subnets| && PairBefore(a', b', a, b) ==> !Ipv4.Overlaps(subnets[a'], subnets[b'])
  {
    var pair := OverlapFrom(subnets, 0, 1);
    var (a, b) := pair.value;
    assert CidrVerdict(vcn, subnets) == Fail(Overlap(subnets[a], subnets[b]));
    forall a', b' | 0 <= a' < b' < |subnets| && PairBefore(a', b', a, b)
      ensures !Ipv4.Overlaps(subnets[a'], subnets[b'])
    {
      assert PairFrom(|subnets|, 0, 1, a', b');
    }
  }

  /** Validation of parsed networks passes exactly when every subnet is a subnet of the
      VCN and no address belongs to two subnets. */
  lemma PassIffNoSharedAddress(vcn: Ipv4.Network, subnets: seq<Ipv4.Network>)
    ensures CidrVerdict(vcn, subnets) == Pass <==>
      AllInside(vcn, subnets) &&
      forall a, b, x: nat :: 0 <= a < b < |subnets| ==> !(Ipv4.InPrefix(x, subnets[a]) && Ipv4.InPrefix(x, subnets[b]))
  {
    forall a, b | 0 <= a < b < |subnets|
      ensures Ipv4.Overlaps(subnets[a], subnets[b]) <==>
        exists x: nat :: Ipv4.InPrefix(x, subnets[a]) && Ipv4.InPrefix(x, subnets[b])
    {
      Ipv4.OverlapsIffSharedAddress(subnets[a], subnets[b]);
    }
  }

  /** Validation of parsed networks passes exactly when every subnet is a subnet of the
      VCN and of any two subnets neither is a subnet of the other. */
  lemma PassIffNotNested(vcn: Ipv4.Network, subnets: seq<Ipv4.Network>)
    ensures CidrVerdict(vcn, subnets) == Pass <==>
      AllInside(vcn, subnets) &&
      forall a, b :: 0 <= a < b < |subnets| ==>
        !Ipv4.SubnetOf(subnets[a], subnets[b]) && !Ipv4.SubnetOf(subnets[b], subnets[a])
  {
    forall a, b | 0 <= a < b < |subnets|
      ensures Ipv4.Overlaps(subnets[a], subnets[b]) <==>
        Ipv4.SubnetOf(subnets[a], subnets[b]) || Ipv4.SubnetOf(subnets[b], subnets[a])
    {
      Ipv4.OverlapsIffNested(subnets[a], subnets[b]);
    }
  }

  /** For the configuration: validation passes exactly when the four texts parse, the
      service-LB, node and API subnets lie in the VCN, and no two of them overlap. */
  lemma ValidationIff(c: OciConfig)
    ensures CidrValidation(c) == Pass <==>
      exists vcn, lb, node, api ::
        && ParseCidr(VcnCidrBlock(c)) == Ok(vcn)
        && ParseCidr(ServiceLbSubnetCidrBlock(c)) == Ok(lb)
        && ParseCidr(NodeSubnetCidrBlock(c)) == Ok(node)
        && ParseCidr(K8sApiSubnetCidrBlock(c)) == Ok(api)
        && Ipv4.SubnetOf(lb, vcn) && Ipv4.SubnetOf(node, vcn) && Ipv4.SubnetOf(api, vcn)
        && !Ipv4.Overlaps(lb, node) && !Ipv4.Overlaps(lb, api) && !Ipv4.Overlaps(node, api)
  {
    var parsed := ParsedCidrs(c);
    if parsed.Ok? {
      var vcn, subnets := parsed.value.0, parsed.value.1;
      var lb, node, api := subnets[0], subnets[1], subnets[2];
      assert subnets == [lb, node, api];
      assert ParseCidr(VcnCidrBlock(c)) == Ok(vcn) && ParseCidr(ServiceLbSubnetCidrBlock(c)) == Ok(lb);
      assert ParseCidr(NodeSubnetCidrBlock(c)) == Ok(node) && ParseCidr(K8sApiSubnetCidrBlock(c)) == Ok(api);
      ThreeSubnets(vcn, lb, node, api);
    }
  }

  lemma ThreeSubnets(vcn: Ipv4.Network, lb: Ipv4.Network, node: Ipv4.Network, api: Ipv4.Network)
    ensures CidrVerdict(vcn, [lb, node, api]) == Pass <==>
      && Ipv4.SubnetOf(lb, vcn) && Ipv4.SubnetOf(node, vcn) && Ipv4.SubnetOf(api, vcn)
      && !Ipv4.Overlaps(lb, node) && !Ipv4.Overlaps(lb, api) && !Ipv4.Overlaps(node, api)
  {
    var subnets := [lb, node, api];
    assert subnets[0] == lb && subnets[1] == node && subnets[2] == api;
    assert AllInside(vcn, subnets) <==>
      Ipv4.SubnetOf(lb, vcn) && Ipv4.SubnetOf(node, vcn) && Ipv4.SubnetOf(api, vcn);
    assert PairwiseDisjoint(subnets) <==>
      !Ipv4.Overlaps(lb, node) && !Ipv4.Overlaps(lb, api) && !Ipv4.Overlaps(node, api);
  }

  /** The four default CIDR texts, and the text of a load-balancer subnet nested in the
      default node subnet, parse to the expected prefixes. */
  lemma ParseCidrLiterals()
    ensures ParseCidr("10.0.0.0/16") == Ok(Ipv4.Prefix(0x0A00_0000, 16))
    ensures ParseCidr("10.0.20.0/24") == Ok(Ipv4.Prefix(0x0A00_1400, 24))
    ensures ParseCidr("10.0.10.0/24") == Ok(Ipv4.Prefix(0x0A00_0A00, 24))
    ensures ParseCidr("10.0.0.0/28") == Ok(Ipv4.Prefix(0x0A00_0000, 28))
    ensures ParseCidr("10.0.10.128/25") == Ok(Ipv4.Prefix(0x0A00_0A80, 25))
  {
    ParseVcnDefault();
    ParseServiceLbDefault();
    ParseNodeDefault();
    ParseK8sApiDefault();
    ParseNestedLoadBalancer();
  }

  lemma ParseVcnDefault()
    ensures ParseCidr("10.0.0.0/16") == Ok(Ipv4.Prefix(0x0A00_0000, 16))
  {
    Ipv4.Pow2Values();
    var p := Ipv4.Prefix(0x0A00_0000, 16);
    assert Ipv4.WellFormed(p);
    Ipv4.FormatOctets(p, 10, 0, 0, 0);
    assert Decimal.Render(0) == "0";
    assert Decimal.Render(10) == "10";
    assert Decimal.Render(16) == "16";
    assert Ipv4.Format(p) == "10.0.0.0/16";
    Ipv4.ParseOfFormat(p);
  }

  lemma ParseServiceLbDefault()
    ensures ParseCidr("10.0.20.0/24") == Ok(Ipv4.Prefix(0x0A00_1400, 24))
  {
    Ipv4.Pow2Values();
    var p := Ipv4.Prefix(0x0A00_1400, 24);
    assert Ipv4.WellFormed(p);
    Ipv4.FormatOctets(p, 10, 0, 20, 0);
    assert Decimal.Render(0) == "0";
    assert Decimal.Render(10) == "10";
    assert Decimal.Render(20) == "20";
    assert Decimal.Render(24) == "24";
    assert Ipv4.Format(p) == "10.0.20.0/24";
    Ipv4.ParseOfFormat(p);
  }

  lemma ParseNodeDefault()
    ensures ParseCidr("10.0.10.0/24") == Ok(Ipv4.Prefix(0x0A00_0A00, 24))
  {
    Ipv4.Pow2Values();
    var p := Ipv4.Prefix(0x0A00_0A00, 24);
    assert Ipv4.WellFormed(p);
    Ipv4.FormatOctets(p, 10, 0, 10, 0);
    assert Decimal.Render(0) == "0";
    assert Decimal.Render(10) == "10";
    assert Decimal.Render(24) == "24";
    assert Ipv4.Format(p) == "10.0.10.0/24";
    Ipv4.ParseOfFormat(p);
  }

  lemma ParseK8sApiDefault()
    ensures ParseCidr("10.0.0.0/28") == Ok(Ipv4.Prefix(0x0A00_0000, 28))
  {
    Ipv4.Pow2Values();
    var p := Ipv4.Prefix(0x0A00_0000, 28);
    assert Ipv4.WellFormed(p);
    Ipv4.FormatOctets(p, 10, 0, 0, 0);
    assert Decimal.Render(0) == "0";
    assert Decimal.Render(10) == "10";
    assert Decimal.Render(28) == "28";
    assert Ipv4.Format(p) == "10.0.0.0/28";
    Ipv4.ParseOfFormat(p);
  }

  lemma ParseNestedLoadBalancer()
    ensures ParseCidr("10.0.10.128/25") == Ok(Ipv4.Prefix(0x0A00_0A80, 25))
  {
    Ipv4.Pow2Values();
    assert Ipv4.Pow2(7) == 128;
    var p := Ipv4.Prefix(0x0A00_0A80, 25);
    assert Ipv4.WellFormed(p);
    Ipv4.FormatOctets(p, 10, 0, 10, 128);
    assert Decimal.Render(0) == "0";
    assert Decimal.Render(10) == "10";
    assert Decimal.Render(25) == "25";
    assert Decimal.Render(128) == "128";
    assert Ipv4.Format(p) == "10.0.10.128/25";
    Ipv4.ParseOfFormat(p);
  }

  /** With the four CIDR settings unset or empty, the defaults 10.0.0.0/16 (VCN),
      10.0.20.0/24 (service LB), 10.0.10.0/24 (node) and 10.0.0.0/28 (API) pass. */
  lemma DefaultCidrsPass(c: OciConfig)
    requires "vcn_cidr_block" !in c.store || c.store["vcn_cidr_block"] == ""
    requires "service_lb_subnet_cidr" !in c.store || c.store["service_lb_subnet_cidr"] == ""
    requires "node_subnet_cidr" !in c.store || c.store["node_subnet_cidr"] == ""
    requires "k8s_api_subnet_cidr" !in c.store || c.store["k8s_api_subnet_cidr"] == ""
    ensures CidrValidation(c) == Pass
  {
    ParseCidrLiterals();
    Ipv4.Pow2Values();
    var vcn := Ipv4.Prefix(0x0A00_0000, 16);
    var lb := Ipv4.Prefix(0x0A00_1400, 24);
    var node := Ipv4.Prefix(0x0A00_0A00, 24);
    var api := Ipv4.Prefix(0x0A00_0000, 28);
    assert ParsedCidrs(c) == Ok((vcn, [lb, node, api]));
    Ipv4.OverlapsIffIntersect(lb, node);
    Ipv4.OverlapsIffIntersect(lb, api);
    Ipv4.OverlapsIffIntersect(node, api);
    ThreeSubnets(vcn, lb, node, api);
  }

  /** A load-balancer subnet 10.0.10.128/25 inside the node subnet 10.0.10.0/24 is
      reported as an overlap naming both, load balancer first. */
  lemma NestedSubnetsRejected(c: OciConfig)
    requires "vcn_cidr_block" !in c.store && "k8s_api_subnet_cidr" !in c.store
    requires "service_lb_subnet_cidr" in c.store && c.store["service_lb_subnet_cidr"] == "10.0.10.128/25"
    requires "node_subnet_cidr" in c.store && c.store["node_subnet_cidr"] == "10.0.10.0/24"
    ensures CidrValidation(c).Fail? && CidrValidation(c).error.Overlap?
    ensures CidrValidation(c).error.first == Ipv4.Prefix(0x0A00_0A80, 25)
    ensures CidrValidation(c).error.second == Ipv4.Prefix(0x0A00_0A00, 24)
  {
    ParseCidrLiterals();
    var vcn := Ipv4.Prefix(0x0A00_0000, 16);
    var lb := Ipv4.Prefix(0x0A00_0A80, 25);
    var node := Ipv4.Prefix(0x0A00_0A00, 24);
    var api := Ipv4.Prefix(0x0A00_0000, 28);
    assert ParsedCidrs(c) == Ok((vcn, [lb, node, api]));
    NestedVerdict(vcn, lb, node, api);
  }

  /** The verdict on the parsed networks of the nested scenario. */
  lemma NestedVerdict(vcn: Ipv4.Network, lb: Ipv4.Network, node: Ipv4.Network, api: Ipv4.Network)
    requires vcn == Ipv4.Prefix(0x0A00_0000, 16) && lb == Ipv4.Prefix(0x0A00_0A80, 25)
    requires node == Ipv4.Prefix(0x0A00_0A00, 24) && api == Ipv4.Prefix(0x0A00_0000, 28)
    ensures CidrVerdict(vcn, [lb, node, api]) == Fail(Overlap(lb, node))
  {
    var subnets := [lb, node, api];
    NestedNetworks();
    assert AllInside(vcn, subnets) by {
      assert subnets[0] == lb && subnets[1] == node && subnets[2] == api;
    }
    Ipv4.SubnetOverlaps(lb, node);
    FirstPairOverlaps(vcn, subnets);
  }

  /** When every subnet lies in the VCN and the first two overlap, the error names those two. */
  lemma FirstPairOverlaps(vcn: Ipv4.Network, subnets: seq<Ipv4.Network>)
    requires |subnets| >= 2 && AllInside(vcn, subnets) && Ipv4.Overlaps(subnets[0], subnets[1])
    ensures CidrVerdict(vcn, subnets) == Fail(Overlap(subnets[0], subnets[1]))
  {
    assert OutsideFrom(vcn, subnets, 0).None?;
    assert OverlapFrom(subnets, 0, 1) == Some((0, 1));
  }

  /** The four networks of the nested scenario are well formed, all lie in the VCN, and
      the load-balancer subnet lies in the node subnet. */
  lemma NestedNetworks()
    ensures Ipv4.WellFormed(Ipv4.Prefix(0x0A00_0000, 16)) && Ipv4.WellFormed(Ipv4.Prefix(0x0A00_0A80, 25))
    ensures Ipv4.WellFormed(Ipv4.Prefix(0x0A00_0A00, 24)) && Ipv4.WellFormed(Ipv4.Prefix(0x0A00_0000, 28))
    ensures Ipv4.SubnetOf(Ipv4.Prefix(0x0A00_0A80, 25), Ipv4.Prefix(0x0A00_0000, 16))
    ensures Ipv4.SubnetOf(Ipv4.Prefix(0x0A00_0A00, 24), Ipv4.Prefix(0x0A00_0000, 16))
    ensures Ipv4.SubnetOf(Ipv4.Prefix(0x0A00_0000, 28), Ipv4.Prefix(0x0A00_0000, 16))
    ensures Ipv4.SubnetOf(Ipv4.Prefix(0x0A00_0A80, 25), Ipv4.Prefix(0x0A00_0A00, 24))
  {
    Ipv4.Pow2Values();
    assert Ipv4.Pow2(7) == 128;
    assert Ipv4.BlockSize(16) == 0x1_0000 && Ipv4.BlockSize(24) == 256;
    assert Ipv4.BlockSize(25) == 128 && Ipv4.BlockSize(28) == 16;
  }

  // ---------------------------------------------------------------------------
  // Importing the module
  // ---------------------------------------------------------------------------

  /** How the module-level CIDR validation ended: it passed, or its error was logged as
      a warning and swallowed. */
  datatype ImportOutcome = Validated | Warned(error: ConfigError)

  /** Importing config.py: `cfg = OCIConfig()` (missing secrets propagate), the
      module-level constants (an integer setting that is not an integer propagates,
      pool size first, then memory, then OCPUs), then `validate_cidr_blocks()`, whose
      failure never propagates. */
  method ImportConfig(store: Store) returns (r: Result<(OciConfig, ImportOutcome), ConfigError>)
    ensures r.Err? ==> r.error.MissingConfig? || r.error.ConfigType?
    ensures r.Err? && r.error.MissingConfig? <==> !("compartment_id" in store && "ssh_public_key" in store)
    ensures r.Ok? <==>
      && "compartment_id" in store && "ssh_public_key" in store
      && AllConfig(OciConfig(store)).Ok?
    ensures r.Err? && r.error.ConfigType? ==> r.error == FirstIntError(OciConfig(store))
    ensures r.Ok? ==> r.value.0 == OciConfig(store)
    ensures r.Ok? ==> (r.value.1 == Validated <==> CidrValidation(OciConfig(store)) == Pass)
    ensures r.Ok? && r.value.1.Warned? ==> CidrValidation(OciConfig(store)) == Fail(r.value.1.error)
  {
    var created := NewOciConfig(store);
    if created.Err? {
      return Err(created.error);
    }
    var c := created.value;
    var size := IntValue(c, NodePoolSizeSetting);
    if size.Err? {
      return Err(size.error);
    }
    var memory := IntValue(c, NodeMemoryGbsSetting);
    if memory.Err? {
      return Err(memory.error);
    }
    var ocpus := IntValue(c, NodeOcpusSetting);
    if ocpus.Err? {
      return Err(ocpus.error);
    }
    var check := ValidateCidrBlocks(c);
    if check.Fail? {
      return Ok((c, Warned(check.error)));
    }
    return Ok((c, Validated));
  }
}
