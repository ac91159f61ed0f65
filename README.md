# OKE infrastructure configuration and security lists, in Dafny

This project models the configuration core of a Pulumi program that builds an Oracle
Kubernetes Engine (OKE) cluster network on OCI, and proves properties of that model.

- `config.py`, class `OCIConfig` (module `Config`, file `config.dfy`):
  - the check of the two required secrets (`compartment_id`, `ssh_public_key`);
  - the properties that read a setting with an `or`-default (text and integer);
  - the per-region table and its three accessors, with the fallback to `ap-osaka-1`;
  - the settings summary `get_all_config`;
  - the CIDR validator `validate_cidr_blocks`;
  - what importing the module does: build `cfg`, read the module constants, and run
    the validator with its failure turned into a warning.
- The part of Python's `ipaddress.IPv4Network` the validator uses (module `Ipv4`, file
  `ipv4.dfy`): strict parsing of a CIDR text, `subnet_of`, `overlaps` and address
  membership, for IPv4 prefixes as section 3.1 of RFC 4632 defines them.
- `network/security.py`, class `SecurityListManager` (module `Security`, file
  `security.dfy`): the rule records of the node and Kubernetes API security lists, the
  three security-list descriptors, and the manager that creates them and keeps them in
  its fields.

`decimal.dfy` (digit strings and their values) and `wrappers.dfy` (`Option`, `Result`,
`Outcome`) are shared helpers.

How the source's state is represented:

- The Pulumi configuration is a map from key to text (`Config.Store`).
- An `OCIConfig` object is the store it reads (`Config.OciConfig`). Its properties are
  functions of that store.
- A raised exception is the `Err`/`Fail` case of a result, carrying a `ConfigError`.
- `SecurityListManager` is a class whose three list fields the creating method assigns.
  A created security list is a `SecurityList` value holding the arguments the source
  passes to the resource constructor.

The main results:

- Validation passes exactly when the four CIDR texts parse, each subnet lies inside
  the VCN, and no two subnets share an address. Equivalently, of any two subnets neither
  contains the other (two IPv4 prefixes overlap only when one is nested in the other).
- The loop implementation of the validator computes exactly its specification. It
  reports the first subnet outside the VCN before any overlap, and otherwise the first
  overlapping pair in loop order.
- The default CIDRs pass. A load-balancer subnet nested in the node subnet is rejected
  as an overlap.
- Printing a prefix and parsing the text back gives the same prefix. Strict parsing
  rejects set host bits.
- Importing the configuration fails only for a missing secret or a non-integer integer
  setting; a CIDR failure at import becomes a warning.
- Every security rule is stateful. Ingress rules name a source and egress rules a
  destination, and every address is one of the two subnet CIDRs, `0.0.0.0/0` or the
  service CIDR label. Once validation passes, every destination type matches its
  destination.

## Model

| member | source | states |
|---|---|---|
| Config.MissingKeys | config.py:22-32 | the collected keys are exactly the listed keys the store does not set, at most as many as listed |
| Config.ValidateRequiredConfigs | config.py:20-38 | passes iff both required secrets are set; otherwise one `MissingConfig` error naming every unset secret, in the listed order |
| Config.MissingSecretsInOrder | config.py:22-38 | the missing secrets are reported compartment id first, then SSH key, each only when it is unset |
| Config.NewOciConfig | config.py:16-18 | the object exists iff both secrets are set, and it reads the given store; otherwise the missing-secrets error |
| Config.Text | config.py:133-208 | `get(key) or default`: a set non-empty text wins, unset or empty gives the default, and the result is never empty when the default is not |
| Config.ParseInt | config.py:203 | `int(text)` on an optional sign and ASCII digits: accepted text starts with a digit or a sign, and a '-' gives a value at most 0, anything else a value at least 0; characterised by `Config.ParseIntOfRender` |
| Config.GetInt | config.py:200-203 | `get_int`: unset gives no value; integer text gives exactly the integer it reads as; other text fails |
| Config.IntValue | config.py:200-218 | `get_int(key) or default`: an unset key gives the default; integer text gives its value, except that 0 gives the default; other text fails with `ConfigType(key)`; a non-zero default never yields 0 |
| Config.ParseIntOfRender | config.py:203 | every integer's decimal text reads back as that integer |
| Config.IntSettingOr | config.py:200-218 | a setting written as the text of n reads as n, except that 0 falls back to the default |
| Config.RegionConfig | config.py:70-106 | the region settings are always one of the five table entries |
| Config.RegionFallback | config.py:56-59 | a known region gets its own entry with no warning; an unknown region gets the Osaka entry and a warning; an unset or empty region is Osaka |
| Config.RegionWarns | config.py:101-104 | the warning is logged only for a region that is not in the table, which is never the default region, and then the default region's entry is used |
| Config.RegionAccessorsAgree | config.py:108-127 | availability domain, service id and image id all come from the same table entry |
| Config.AllConfig | config.py:224-241 | fourteen keys and no secret; succeeds iff all three integer settings parse; otherwise the first failing one's error, in pool size, memory, OCPUs order |
| Config.SecretsNotSummarised | config.py:224-241 | neither secret key is among the summary keys |
| Config.Summary | config.py:226-241 | the summary dictionary has exactly the fourteen summary keys |
| Config.OutsideFrom | config.py:256-258 | the first subnet at or after index i that is not a subnet of the VCN, or none when all are |
| Config.OverlapFrom | config.py:261-264 | the first overlapping pair the nested loops visit from (i, j) on; no pair visited earlier overlaps; none means no pair from there on overlaps |
| Config.CidrVerdict | config.py:253-264 | passes iff every subnet lies in the VCN and no two subnets overlap; a subnet outside the VCN always gives an `OutsideVcn` error |
| Config.CidrValidation | config.py:247-270 | definition of the outcome of `validate_cidr_blocks`; characterised by `Config.ValidationIff` and `Config.ValidationErrorKinds` |
| Config.ValidationErrorKinds | config.py:247-270 | validation fails only with an unparsable CIDR text (naming one of the four settings' texts), a subnet outside the VCN, or two overlapping subnets |
| Config.ValidateCidrBlocks | config.py:243-270 | returns exactly the validation specification: a parse error, the first containment error, the first overlap, or success |
| Config.CheckNetworks | config.py:255-266 | the containment loop and the nested pair loops over the parsed networks return exactly `CidrVerdict`: the first subnet outside the VCN, else the first overlapping pair in loop order, else success |
| Config.ContainmentReportedFirst | config.py:256-264 | when some subnet is outside the VCN, the error names the first such subnet in list order, even if subnets also overlap |
| Config.FirstOverlapReported | config.py:261-264 | when all subnets are inside but two overlap, the error names an overlapping pair, and no pair visited before it overlaps |
| Config.PassIffNoSharedAddress | config.py:253-264 | validation of parsed networks passes iff all subnets are inside the VCN and no address lies in two subnets |
| Config.PassIffNotNested | config.py:253-264 | validation of parsed networks passes iff all subnets are inside the VCN and no subnet contains another |
| Config.ThreeSubnets | config.py:254-264 | for the three subnets (service LB, node, API): pass iff each is inside the VCN and none of the three pairs overlaps |
| Config.ValidationIff | config.py:247-264 | for a configuration: passes iff the four texts parse, the three subnets are inside the VCN and pairwise do not overlap |
| Config.ParseCidrLiterals | config.py:133-189 | the default VCN, service LB, node and API CIDR texts parse to 10.0.0.0/16, 10.0.20.0/24, 10.0.10.0/24 and 10.0.0.0/28 |
| Config.DefaultCidrsPass | config.py:176-189 | with the four CIDR settings unset or empty, validation passes |
| Config.NestedSubnetsRejected | config.py:261-264 | a load-balancer subnet 10.0.10.128/25 inside the node subnet 10.0.10.0/24 fails as an overlap naming the load balancer first |
| Config.ImportConfig | config.py:273-305 | import fails only with missing secrets or a non-integer integer setting (the first in pool size, memory, OCPUs order); it succeeds iff the secrets are set and the summary reads; the CIDR outcome is `Validated` iff validation passes, otherwise a warning carrying its error |
| Ipv4.InPrefix | config.py:263 | definition of `address in network` as the mask test; characterised by `Ipv4.InPrefixIsInterval` |
| Ipv4.SubnetOf | config.py:257 | definition of `subnet_of` on the network and broadcast addresses; characterised by `Ipv4.OverlapsIffNested` and `Ipv4.SubnetOverlaps` |
| Ipv4.Overlaps | config.py:263 | definition of `overlaps` as four end-point membership tests; characterised by `Ipv4.OverlapsIffIntersect`, `Ipv4.OverlapsIffSharedAddress` and `Ipv4.OverlapsIffNested` |
| Ipv4.InPrefixIsInterval | config.py:263 | the mask test for an address in a well-formed prefix holds iff the address lies between the network and broadcast addresses |
| Ipv4.OverlapsIffIntersect | config.py:263 | the four-endpoint overlap test holds iff the two address intervals intersect; overlap is symmetric |
| Ipv4.OverlapsIffSharedAddress | config.py:263 | two prefixes overlap iff some address belongs to both |
| Ipv4.ShorterContainsLonger | config.py:257 | of two intersecting prefixes, the one with the longer length is a subnet of the other |
| Ipv4.OverlapsIffNested | config.py:257-263 | two prefixes overlap iff one is a subnet of the other |
| Ipv4.SubnetOverlaps | config.py:257-263 | a subnet overlaps the network that contains it, in both argument orders |
| Ipv4.ParseOctet | config.py:248-251 | an accepted octet is all digits, its value is the value of those digits, and it is below 256 |
| Ipv4.ParseAddress | config.py:248-251 | an accepted dotted quad is a 32-bit address |
| Ipv4.ParsePrefix | config.py:248-251 | definition of `IPv4Network(text)` in strict mode; characterised by `Ipv4.ParsePrefixParts`, `Ipv4.ParseWithLength`, `Ipv4.ParseBareAddress` and `Ipv4.ParseOfFormat` |
| Ipv4.ParsePrefixParts | config.py:248-251 | a parsed network has at most one '/', its address is the text before the '/', its length is the text after it or 32 when there is none; more than one '/' is refused as `TooManySlashes` |
| Ipv4.NetmaskLength | config.py:248-251 | finds the prefix length whose netmask is the given value, or reports that no length has that netmask |
| Ipv4.ParseWithLength | config.py:248-251 | "address/length" parses to that prefix when no host bit is set, and otherwise fails with `HostBitsSet` |
| Ipv4.ParseBareAddress | config.py:248-251 | an address without a length parses as a /32 network |
| Ipv4.ParseOfFormat | config.py:248-251 | printing a well-formed prefix and parsing the text gives the same prefix |
| Ipv4.ParsedTextStartsWithDigit | config.py:248-251 | every text that parses as a network starts with a decimal digit |
| Decimal.ValueOfRender | config.py:203 | the value of the decimal rendering of n is n |
| Decimal.RenderOfValue | config.py:203 | a digit string without a leading zero is the rendering of its value |
| Security.PathDiscoveryRule | network/security.py:57-67 | a stateful ICMP type 3 code 4 rule whose only address is the CIDR, under source (ingress) or destination (egress) |
| Security.NodeTcpRule | network/security.py:69-78 | a stateful TCP ingress rule from the Kubernetes API subnet |
| Security.NodeIngressRules | network/security.py:81-100 | four stateful ingress rules, path discovery from the API subnet first, each from an allowed address |
| Security.NodeEgressRules | network/security.py:103-137 | five stateful egress rules, path discovery to the API subnet first, all but the first typed; every destination type matches its destination whenever the subnet texts are not the service label |
| Security.K8sApiIngressRules | network/security.py:140-158 | three stateful ingress rules, path discovery from the node subnet first, each from an allowed address |
| Security.K8sApiEgressRules | network/security.py:161-181 | three stateful egress rules, path discovery to the node subnet first, all but the first typed; destination types match as for the node egress rules |
| Security.ValidatedDestinationTypes | network/security.py:109-122 | once the CIDR settings pass validation, neither subnet text is the service label, so every destination type in both egress tables matches its destination |
| Security.PathDiscoveryMirror | network/security.py:86-166 | swapping the node and API subnet CIDRs swaps the path-discovery rules of the node and API lists |
| Security.NewSecurityList | network/security.py:17-28 | the resource and display name are the given name; the compartment is the configured compartment id; the VCN is the manager's VCN; the rule sets are those given |
| Security.NodeSecurityList | network/security.py:30-38 | the list named `oke-node-security-list` in the configured compartment and the manager's VCN, carrying the node ingress and egress rules |
| Security.K8sApiSecurityList | network/security.py:40-48 | the list named `oke-k8s-api-security-list` in the configured compartment and the manager's VCN, carrying the API ingress and egress rules |
| Security.ServiceLbSecurityList | network/security.py:50-54 | the list named `oke-service-lb-security-list` in the configured compartment and the manager's VCN, with neither rule set |
| Security.SecurityListsShape | network/security.py:30-54 | the three lists share compartment and VCN and have distinct names; the node list has 4 and 5 rules, the API list 3 and 3, the service load balancer list none |
| Security.SecurityListManager.constructor | network/security.py:11-15 | a new manager keeps its VCN and has created no list |
| Security.SecurityListManager.CreateAllSecurityLists | network/security.py:183-194 | creates the node, API and service load balancer lists, stores each in its field and returns them in that order |

## Left out

- Pulumi resources and outputs are not modelled. A security list is the value of the
  arguments passed to its constructor. The VCN is known only by an id. Secrets are plain
  text rather than `Output[str]`.
- Logging is not modelled. `region_config`'s warning is the predicate
  `Config.RegionWarns`, and the import-time warning is `Config.ImportOutcome.Warned`.
  The logged message texts are not modelled.
- `require_secret` is modelled as failing exactly when the key is unset. The `value is
  None` test after it can never succeed, so it has no counterpart.
- Config.ParseInt: Python's `int` also accepts surrounding whitespace, underscores
  between digits and non-ASCII digits. The model accepts only an optional sign followed
  by ASCII digits, and treats any other text as a `ConfigTypeError`.
- Ipv4.ParsePrefix: only text input is modelled (the validator passes only text).
  Python's `int` and tuple constructors are not part of this model. The error kinds are
  coarser than Python's exception messages.
- The `isinstance` assertions in the three region accessors (config.py:112, 119, 126)
  always hold for the table's text values, so they are not modelled.
- The `__name__ != '__main__'` guard at config.py:301 is true whenever the module is
  imported, so `Config.ImportConfig` always runs the validation.
- The module constants at config.py:277-298 are modelled only where reading them can
  fail: the three integer settings. The other constants are the functions of the same
  names (`Region`, `VcnCidrBlock`, ...), and `Text` for the rest.
- The `profile`, `kubernetes_version`, display-name, node pool name and node shape
  properties are `Config.Text` with their keys and defaults (`Config.ProfileSetting`,
  ...), with no function of their own.
- Config.AllConfig: the values of the summary are stated only through
  `Config.Summary`'s definition, not as one `ensures` per key.
- The VCN, subnet, gateway, routing and cluster modules and `__main__.py` are not part
  of this model. They only read the settings modelled here.

## Notes on the source

- `validate_cidr_blocks` logs and re-raises its error (config.py:268-270), but the
  module-level call swallows every exception into a warning (config.py:302-305). So a
  bad CIDR never stops the import. `Config.ImportConfig` follows the code.
- An unknown region falls back to `ap-osaka-1`, which the code names explicitly
  (config.py:104). It also happens to be the first entry of the table (config.py:74).
- The service CIDR label is the Osaka label for every region (config.py:143-146). The
  model keeps it constant.
