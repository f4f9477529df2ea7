# Linode cloud controller manager: a verified model

This project models the parts of the Linode cloud controller manager (CCM) where several actors, stale reads or
approximate tests meet, and proves what they promise:

- **Node IPAM** (`cloud/nodeipam/ipam`): up to thirty workers take blocks from one set, read a stale lister, patch the
  API server up to three times, and release or deliberately keep the block, while nodes come and go, delete events
  release blocks on their own or are missed, and a request may still land after its error was returned. `IpamProtocol`
  is the state machine; `IpamOwnership` and `IpamSafety` prove what every run keeps; `IpamWorker` writes the worker code
  as methods with interference between any two of its steps and shows that whatever it does is a run of the machine;
  `IpamAllocator` covers start-up, occupy and release; `IpamNecessity` shows that each premise of the safety theorem is
  needed, up to whole runs that break one premise once.
- **CIDR arithmetic** (`Shifts`, `Cidr`, `Ipv6Pod`): prefixes as in section 3.1 of RFC 4632 and section 2.3 of RFC 4291,
  addresses as naturals and blocks as aligned power-of-two ranges. The code's masked comparisons are proved against the
  reading of a prefix as an interval.
- **Firewalls** (`Ports`, `Firewall`, `FirewallChange`, `FirewallSoundness`, `FirewallDevices`): the compiler from an
  ACL to rules is proved against a packet semantics (first matching rule, else the inbound policy); the change test is
  given the exact condition under which its "unchanged" means that the packets are decided as the ACL says; attaching,
  switching and deleting firewalls is proved over the trail of every write.
- **Routes** (`Routes`, `RouteRuns`, `RouteController`): every call overwrites all ranges of an interface from a cache
  that may be stale. `RouteRuns` says what any run of interleaved calls leaves on each interface, and which calls had
  exactly their effect; `RouteController` is the code, proved to produce such runs.
- **NodeBalancer configs** (`NodeBalancer`) and **status lookup** (`LbStatus`), the **instance cache** (`Instances`) and
  the **node work queue** (`NodeQueue`).

`dafny verify dfyconfig.toml` checks the whole project (Dafny 4.11).

## Premises

Premises are `requires` clauses or parts of a state machine; none is a hidden assumption.

- IPAM: CCM is the only writer of PodCIDRs (`docs/configuration/nodeipam.md:28`); a PodCIDR that is set does not
  change (`cloud/nodeipam/node_ipam_controller.go:60`); a key is processed by one worker at a time; the informer
  passes the versions of a node in order, though a relist may pass some without an event; every node block has the
  node mask size; the informer starts from the node list the allocator started from. `BurstPremise`: a burst whose
  last error is not a server timeout releases a block on which nobody else has a claim, that is, which is not stored,
  not awaiting a delete event, not in flight with another worker, and without a request still to land. `NamePremise`:
  a request of a burst that has already written its node does not write the name again after it was deleted and
  created anew. The last two are needed: see `BurstPremiseNeeded` and `NamePremiseNeeded`. The answers of the API server
  to the attempts of a burst are parameters of the worker's methods.
- The upstream CIDR set is a contract: `AllocateNext` returns some free block and fails exactly when none is free,
  `Occupy` marks and `Release` clears every block the CIDR overlaps, without counting.
- Remote stores (firewalls, NodeBalancers, interfaces): any calls may fail, and a call that fails has no effect. Which
  ones fail is given beforehand, by their number, and the code learns it only by making the call. During one operation on a firewall or a NodeBalancer no one else writes to the objects concerned.
- Routes: each VPC record has an address or a range; a refresh sees the interfaces of one moment; only route calls write
  ranges. What a run leaves is claimed for each interface that is the only one of its instance on the managed VPCs.
- The work queue is the Kubernetes delaying queue by its documented contract.

## Where code and comments differ

The model follows the code.

- `cloud/nodeipam/ipam/cloud_allocator.go:520-522` says the pod CIDR is checked to be fully contained in the node's
  range; only its first address is looked at, and for mask 112 only. `PodInsideRange` gives the exact condition under
  which it is contained, and `PodOutsideRange` a range and a mask for which it is not.
- `cloud/linode/services/firewalls.go:174-175` relies on all rules having the same ports and reads the first one only;
  `EditedRuleEscapes` gives a packet that is decided wrongly after a later rule was edited, `UnchangedSoundIff` the
  exact condition on the installed rules, and `UnchangedIsSound` that rules with one action and one port text meet it.
- `cloud/linode/loadbalancers.go:1495-1505` is named and used as a containment test; `WithinTestExact` gives the one
  family of inputs on which it is not.
- `cloud/linode/services/firewalls.go:431` is named after the NodeBalancer's device and compares entity IDs only (line
  442). `OwnDeviceIff` says when it finds another entity's device, and `DetachEffect` what deleting that one does.
- `cloud/linode/route_controller.go:173-176` takes a cached range for a route that exists. After a deletion within the
  lifetime of the cache it does not: `DeleteThenCreateWithinTTL`.
- `updateCIDRsAllocation` has an early return for a node that already shows the proposed CIDRs
  (`cloud/nodeipam/ipam/cloud_allocator.go:645-657`); `MatchNeverTaken` proves it dead, together with the case of an
  equal IPv4 CIDR and a different IPv6 one, on which the code would release a block in use.

## Model

| member | source | states |
|---|---|---|
| IpamSafety.NoOverlap | cloud/nodeipam/ipam/cloud_allocator.go:333-688 | in every state of every run two stored nodes hold CIDRs without a common address |
| IpamSafety.SetAsideNeverAssigned | cloud/nodeipam/ipam/cloud_allocator.go:106-148 | in every run no stored CIDR touches a service range or the reserved final block, if no starting node held one |
| IpamSafety.Accounting | cloud/nodeipam/ipam/cloud_allocator.go:537-688 | used blocks are exactly the stored, deleting, notified, in-flight, set-aside and leaked ones, and every leak has one of five causes |
| IpamSafety.OneOwner | cloud/nodeipam/ipam/cloud_allocator.go:537-688 | the ways a block can be owned exclude each other in every reachable state; leaked blocks are the subject of `LostHasNoOwner` |
| IpamSafety.LostHasNoOwner | cloud/nodeipam/ipam/cloud_allocator.go:549-687 | a leaked block, until it is released or a late request makes it a node's, has no other owner, and it was lost at one step only |
| IpamSafety.LateOccupyFollowsDeletion | cloud/nodeipam/ipam/cloud_allocator.go:359-387 | an occupy leaks only when the informer has since passed the deletion of the version the worker read |
| IpamSafety.MatchNeverTaken | cloud/nodeipam/ipam/cloud_allocator.go:645-657 | the early return for matching CIDRs is unreachable |
| IpamSafety.LeakedWasLost | cloud/nodeipam/ipam/cloud_allocator.go:549-687 | a block counted as leaked was lost at one recorded step, and has since stayed marked without being recovered by a late request |
| IpamSafety.RunInv | cloud/nodeipam/ipam/cloud_allocator.go:333-688 | the ownership invariant holds at every position of every run that meets the premises |
| IpamOwnership.StepKeepsInv | cloud/nodeipam/ipam/cloud_allocator.go:333-688 | each of the eighteen actions preserves the ownership invariant |
| IpamOwnership.PassStep | cloud/nodeipam/ipam/cloud_allocator.go:246-280 | a version the informer passes hands the block of a deleted node to the handler, or loses it when the deletion is missed |
| IpamOwnership.UnclaimedOwner | cloud/nodeipam/ipam/cloud_allocator.go:681-686 | a block nobody else has a claim on is the worker's own, leaked, or not marked, so that releasing it harms no one |
| IpamOwnership.ListedIsNotInFlight | cloud/nodeipam/ipam/cloud_allocator.go:636-657 | a block the lister shows on a node is never the one a worker has just allocated for it |
| IpamOwnership.FinishStep | cloud/nodeipam/ipam/cloud_allocator.go:549-687 | every way a sync ends keeps, gives back or leaks exactly the worker's own block |
| IpamOwnership.LandStep | cloud/nodeipam/ipam/cloud_allocator.go:669-674 | a request that lands first turns a block in flight, or one leaked with its request pending, into the node's, and disturbs no other owner |
| IpamOwnership.LateStep | cloud/nodeipam/ipam/cloud_allocator.go:669-687 | a request that lands after its error was returned, even after its worker ended, preserves the ownership invariant |
| IpamOwnership.StepKeepsLate | cloud/nodeipam/ipam/cloud_allocator.go:669-687 | through every action, a request of a burst that has not written can only land on a block still in flight for its node or leaked |
| IpamNecessity.BurstPremiseNeeded | cloud/nodeipam/ipam/cloud_allocator.go:581-688 | whenever a burst is released although the block is stored, awaits a delete event, can still be written by another worker or has a request still to land, a legal continuation puts it on two nodes |
| IpamNecessity.ClaimMadeGood | cloud/nodeipam/ipam/cloud_allocator.go:333-688 | each of these claims on a block that a node has can be brought to a second node by legal steps |
| IpamNecessity.NamePremiseNeeded | cloud/nodeipam/ipam/cloud_allocator.go:669-674 | if a request of an applied burst is about to write a recreated name while the block is free or somebody else has a claim on it, a legal interleaving puts it on two nodes |
| IpamNecessity.BurstSituationReached | cloud/nodeipam/ipam/cloud_allocator.go:669-686 | the first situation is reached from an empty cluster with every premise respected |
| IpamNecessity.NameSituationReached | cloud/nodeipam/ipam/cloud_allocator.go:581-609 | the second situation is reached from an empty cluster with every premise respected |
| IpamNecessity.BurstRun | cloud/nodeipam/ipam/cloud_allocator.go:333-688 | a whole run from an empty cluster that breaks the first premise at one step, nothing else, and ends with one block on two nodes |
| IpamNecessity.NameRun | cloud/nodeipam/ipam/cloud_allocator.go:581-688 | the same for the second premise |
| IpamNecessity.ReservedPremiseNeeded | cloud/nodeipam/ipam/cloud_allocator.go:581-609 | a starting node on a set-aside block frees it on deletion, and a new node can be given it |
| IpamNecessity.AssignFree | cloud/nodeipam/ipam/cloud_allocator.go:537-571 | a free block can be brought onto a new node by legal steps |
| IpamNecessity.LeadsIsRun | cloud/nodeipam/ipam/cloud_allocator.go:333-688 | a script of legal actions is a run that respects both premises |
| IpamWorker.Cluster.SyncNode | cloud/nodeipam/ipam/cloud_allocator.go:333-356 | a node that is listed and not being deleted is synced: whatever others do, the run goes on from its start, every attempt is answered as the API server answers it, and the result is success exactly if the CIDR was occupied, patched or given back; the code stops short only of the step that would break the first premise; no block is on two nodes; nothing is done for a node that is missing or being deleted |
| IpamWorker.Cluster.AllocateOrOccupyCIDR | cloud/nodeipam/ipam/cloud_allocator.go:537-571 | a CIDR that was read is occupied, and only then; success means occupied, patched, or given back; the worker always ends, unless at that step |
| IpamWorker.Cluster.AllocateCIDR | cloud/nodeipam/ipam/cloud_allocator.go:546-571 | the branch for a node without a CIDR: it is exhausted exactly if no block is free, and fails for want of an IPv6 CIDR exactly if that is wanted, a block was free and the allocation failed |
| IpamWorker.Cluster.AllocateRest | cloud/nodeipam/ipam/cloud_allocator.go:555-571 | after a block was taken: IPv6 failure exactly if IPv6 is wanted and not allocated, otherwise the CIDRs go to updateCIDRsAllocation |
| IpamWorker.Cluster.AllocateNext | cloud/nodeipam/ipam/cloud_allocator.go:549-553 | an unused block is taken, and failure means there is none |
| IpamWorker.Cluster.UpdateCIDRsAllocation | cloud/nodeipam/ipam/cloud_allocator.go:631-688 | a failed lookup exactly if the lister has no node, the block given back exactly if the node has a CIDR, otherwise the burst; after a patch the node holds the worker's block |
| IpamWorker.Cluster.PatchWithRetries | cloud/nodeipam/ipam/cloud_allocator.go:659-688 | the retry loop: attempt number i gets answer number i; after success the node holds the worker's block; failure is a burst of three given up within the premise |
| IpamWorker.Cluster.Patch | cloud/nodeipam/ipam/cloud_allocator.go:669-674 | one attempt lands exactly if it is accepted and may land, else it errs and is lost, has landed or is still to land, as the answer says, and counts; a burst that has written does not write a recreated name |
| IpamWorker.Cluster.Interfere | cloud/nodeipam/ipam/cloud_allocator.go:246-280 | any steps of everyone else leave this worker's place and only extend its node's log |
| IpamWorker.LegalIsRun | cloud/nodeipam/ipam/cloud_allocator.go:333-688 | what the methods record is a run in the sense of the theorems above |
| IpamWorker.Cluster.DistinctNow | cloud/nodeipam/ipam/cloud_allocator.go:333-688 | the run theorems hold of the shared state between any two steps of the code |
| IpamAllocator.OccupyCIDRs | cloud/nodeipam/ipam/cloud_allocator.go:359-387 | marks the blocks of the first entry if that is IPv4 and none otherwise; succeeds exactly for no entries, an IPv6 entry first, or an IPv4 entry of the cluster range that is alone or followed by an IPv6 one |
| IpamAllocator.ReleaseCIDR | cloud/nodeipam/ipam/cloud_allocator.go:581-609 | clears the same blocks; succeeds exactly if every entry is readable and the only IPv4 entry, if any, comes first and is of the cluster range |
| IpamAllocator.OccupyThenRelease | cloud/nodeipam/ipam/cloud_allocator.go:359-609 | releasing what was just occupied restores the set if and only if the blocks were free before, with both results stated for every list |
| IpamAllocator.ReleaseAcceptsLess | cloud/nodeipam/ipam/cloud_allocator.go:359-609 | every list on which occupying fails makes releasing fail too |
| IpamAllocator.TouchedBlock | cloud/nodeipam/ipam/cloud_allocator.go:359-387 | a node CIDR of the node mask size stands for its own block only |
| IpamAllocator.FilterOutServiceRange | cloud/nodeipam/ipam/cloud_allocator.go:613-628 | marks exactly the blocks that share an address with the service range |
| IpamAllocator.SetAsideRanges | cloud/nodeipam/ipam/cloud_allocator.go:106-148 | the ranges set aside are the service ranges and, when due, the last cluster address |
| IpamAllocator.NewAllocator | cloud/nodeipam/ipam/cloud_allocator.go:90-165 | after start-up a block is used exactly if a service range or the first IPv4 CIDR of a listed node meets it, or it is the final one and the cluster range and the subnet end together; it fails exactly when the subnet query, adding the handlers or occupying a node fails |
| IpamAllocator.StartUpMeetsInit | cloud/nodeipam/ipam/cloud_allocator.go:90-165 | what start-up leaves is an initial state of the protocol |
| IpamAllocator.SetAsideOfReserved | cloud/nodeipam/ipam/cloud_allocator.go:113-148 | the set-aside blocks are those overlapping a service range and, when both ranges end together, the final block |
| IpamAllocator.ReserveFinalIff | cloud/nodeipam/ipam/cloud_allocator.go:113-122 | the final block is reserved if and only if some address is in both the cluster range and the subnet and no greater one is in either |
| IpamAllocator.OverlapNeedsCluster | cloud/nodeipam/ipam/cloud_allocator.go:613-628 | a CIDR shares an address with the cluster range if and only if it overlaps a block |
| Cidr.OverlapTestsAgree | cloud/nodeipam/ipam/cloud_allocator.go:620-622 | the two overlap tests agree and hold if and only if the ranges share an address, for either family |
| Cidr.OccupyGuardIsOverlap | cloud/nodeipam/ipam/cidr_allocator.go:151-158 | the unmasked test decides overlap |
| Cidr.WithinTestExact | cloud/linode/loadbalancers.go:1495-1505 | the within test means containment exactly unless a wider range starts at the same address |
| Cidr.WithinTestWitness | cloud/linode/loadbalancers.go:1495-1505 | 10.0.0.0/8 passes as being within 10.0.0.0/16 |
| Cidr.ContainsIsInRange | cloud/nodeipam/ipam/cloud_allocator.go:620-622 | comparing masked addresses is membership in the interval of the prefix |
| Cidr.DistinctBlocksDisjoint | cloud/nodeipam/ipam/cloud_allocator.go:549-554 | blocks with different indices have no address in common |
| Cidr.BlocksTileCluster | cloud/nodeipam/ipam/cloud_allocator.go:90-105 | the node blocks cover the cluster range and nothing else |
| Cidr.LastAddressMarksFinalBlock | cloud/nodeipam/ipam/cloud_allocator.go:113-122 | occupying the last cluster address marks the final block and no other |
| Ipv6Pod.GetIPv6PodCIDR | cloud/nodeipam/ipam/cloud_allocator.go:422-445 | for mask 112 only: the first eight bytes of the address followed by 0, 0, 0, 12, 0, 0, 0, 0, which is the :0:c::/112 subprefix of its /64 |
| Ipv6Pod.StableExact | cloud/nodeipam/ipam/cloud_allocator.go:517-525 | with mask 112 a node gets that subprefix if and only if its range holds the first address of it, and nothing otherwise |
| Ipv6Pod.OtherExact | cloud/nodeipam/ipam/cloud_allocator.go:527-531 | with any other mask it gets the aligned block of that length that holds the address of its range |
| Ipv6Pod.PodInsideRange | cloud/nodeipam/ipam/cloud_allocator.go:512-531 | a returned pod CIDR lies wholly in the node's range if and only if the mask is no shorter than the range |
| Ipv6Pod.PodOutsideRange | cloud/nodeipam/ipam/cloud_allocator.go:512-531 | 2001:db8::/64 with mask 48 gives a pod CIDR that reaches out of it |
| Ipv6Pod.DisjointRangesDisjointPods | cloud/nodeipam/ipam/cloud_allocator.go:512-531 | nodes with disjoint ranges get disjoint pod CIDRs |
| Ipv6Pod.ShortRangeAlwaysServed | cloud/nodeipam/ipam/cloud_allocator.go:517-525 | with a range of /64 or shorter the containment check never fails |
| Ports.ParsePorts | cloud/linode/services/firewalls.go:138-171 | the loop computes the ports of every part in order, or fails when a part is malformed |
| Ports.AppendPart | cloud/linode/services/firewalls.go:141-168 | one part adds its port or the members of its range |
| Ports.AppendRange | cloud/linode/services/firewalls.go:158-160 | the inner loop terminates and appends the whole interval |
| Ports.AcceptedPorts | cloud/linode/services/firewalls.go:138-171 | for accepted text a port is in the result if and only if some part names it |
| Ports.AcceptedIff | cloud/linode/services/firewalls.go:138-171 | text is accepted if and only if each of its comma-separated parts is |
| Ports.RangeText | cloud/linode/services/firewalls.go:143-160 | two printed numbers joined by a dash, with spaces around or not, are the interval between them when in order, and rejected otherwise |
| Ports.RangeAccepted | cloud/linode/services/firewalls.go:138-171 | the same for a whole text |
| Ports.IntervalAt | cloud/linode/services/firewalls.go:158-160 | the interval has every number from its lower to its upper end, once and in order |
| Ports.NumberText | cloud/linode/services/firewalls.go:161-167 | a printed number, with spaces around or not, is that port |
| Ports.ParseSigned | cloud/linode/services/firewalls.go:161-167 | signs are read, and a number outside 32 bits is rejected |
| Ports.SplitExact | cloud/linode/services/firewalls.go:139-141 | no part has a separator, and joining the parts gives the text back |
| Ports.PortsRoundTrip | cloud/linode/services/firewalls.go:583-588 | parsing the printed ports gives them back exactly when the list is not empty and has no negative port, and fails otherwise |
| Firewall.ChunkIPs | cloud/linode/services/firewalls.go:246-271 | the loop computes the chunking function |
| Firewall.ChunksPartition | cloud/linode/services/firewalls.go:246-271 | the chunks concatenate to the list, all but the last have 255 addresses, and their number is the rounded-up quotient |
| Firewall.ProcessACL | cloud/linode/services/firewalls.go:284-354 | appends the compiled rules and sets both policies in place; fails exactly beyond 25 rules |
| Firewall.AppendChunkRules | cloud/linode/services/firewalls.go:302-328 | appends one rule per chunk of one family |
| Firewall.CreateFirewallOptsForSvc | cloud/linode/services/firewalls.go:576-609 | equals the compiler, with its two errors |
| Firewall.PrintServicePorts | cloud/linode/services/firewalls.go:583-588 | the ports in decimal, joined by commas |
| Firewall.CompiledMeansAcl | cloud/linode/services/firewalls.go:576-609 | an allow list accepts a packet if and only if its source is covered and its port is a service port; a deny list drops exactly those; outbound traffic is accepted |
| Firewall.CompiledVerdict | cloud/linode/services/firewalls.go:284-354 | compiled rules act on every packet as one rule with all the addresses would |
| Firewall.ChunkingChangesNoVerdict | cloud/linode/services/firewalls.go:301-339 | the chunked and the single rule give the same verdict on every packet |
| Firewall.CompiledRulesCover | cloud/linode/services/firewalls.go:301-339 | an address is in the ACL if and only if some compiled rule lists it |
| Firewall.CompileLimits | cloud/linode/services/firewalls.go:350-352 | at most 25 rules of at most 255 addresses, one per full or started 255 of a family; too many IPs exactly beyond 25; invalid exactly for both lists or neither |
| FirewallChange.IpsChangedLoop | cloud/linode/services/firewalls.go:88-136 | the loops decide the approximate address test |
| FirewallChange.GatherIPs | cloud/linode/services/firewalls.go:93-103 | the addresses of all rules, per family, in order |
| FirewallChange.IsPortsChanged | cloud/linode/services/firewalls.go:173-215 | set inequality of the first rule's ports and the service's ports |
| FirewallChange.IsRuleChanged | cloud/linode/services/firewalls.go:219-244 | policy, missing rules, addresses and ports are looked at as the change test says, the deny list last |
| FirewallChange.UnchangedIff | cloud/linode/services/firewalls.go:88-244 | rules are called unchanged if and only if the policy is the opposite of the list's action, there are as many addresses of each family as in the list and all of the list among them, and the first rule's ports are readable and the service's |
| FirewallSoundness.UnchangedSoundIff | cloud/linode/services/firewalls.go:219-244 | for a list without repetitions, "unchanged" means that every packet is decided as the ACL says, under every reading of addresses, if and only if every rule with addresses has the list's action and the service's ports |
| FirewallSoundness.UnchangedIsSound | cloud/linode/services/firewalls.go:219-244 | "unchanged" against any rules with one action, one port text and the opposite policy means that the ACL is enforced, and that recompiling changes no verdict |
| FirewallSoundness.UnchangedCompiledIsSound | cloud/linode/services/firewalls.go:219-244 | against rules compiled from any earlier ACL and ports, recompiling succeeds and changes no verdict |
| FirewallSoundness.FittingIsSound | cloud/linode/services/firewalls.go:219-244 | the half of the condition that gives soundness, for lists that repeat an address across the families too |
| FirewallSoundness.MisfitIsUnsound | cloud/linode/services/firewalls.go:176-182 | any rule with addresses and other ports or another action gives a packet that is decided against the ACL |
| FirewallSoundness.EditedRuleEscapes | cloud/linode/services/firewalls.go:176-182 | editing the ports of any later compiled rule is called unchanged, and some packet is decided differently from recompiling |
| FirewallSoundness.OnlyFirstRulePortsRead | cloud/linode/services/firewalls.go:176-182 | editing the ports of any later rule never changes the answer |
| FirewallSoundness.DuplicatesAreUnsound | cloud/linode/services/firewalls.go:113-133 | for every ACL with a repeated address there are compiled rules, with a new host address in its place, that are called unchanged and differ on some packet |
| FirewallSoundness.UnchangedListSameMembers | cloud/linode/services/firewalls.go:113-133 | equal length and one-way membership give equal sets for a duplicate-free list |
| FirewallSoundness.UnchangedLists | cloud/linode/services/firewalls.go:88-136 | rules called unchanged list exactly the addresses of the duplicate-free ACL |
| FirewallSoundness.UnchangedPorts | cloud/linode/services/firewalls.go:199-214 | against compiled rules "unchanged" means equal port sets and the same kind of list |
| FirewallSoundness.CompiledEnforces | cloud/linode/services/firewalls.go:576-609 | compiled rules decide every packet as the ACL says |
| FirewallChange.ReconcileIsFixpoint | cloud/linode/services/firewalls.go:219-244 | compiled rules are found unchanged by the next test if and only if the ports are printable |
| FirewallChange.CompiledIPs | cloud/linode/services/firewalls.go:93-103 | the addresses read back from compiled rules are the ACL's, in order |
| FirewallDevices.Cloud.UpdateNodeBalancerFirewall | cloud/linode/services/firewalls.go:372-428 | two or more attached: an error and no write; it succeeds if and only if no call fails, the annotations are readable and what they ask for is there or can be compiled; an annotation present: never bare in between; unless another entity has the same ID, success leaves what the annotations ask for, down to every packet's verdict for an ACL; every write is safe for others |
| FirewallDevices.Cloud.UpdateServiceFirewall | cloud/linode/services/firewalls.go:454-506 | it succeeds if and only if no call fails, the ID is readable, at most one is attached and the ID names an existing firewall or what is attached already; success with a nonzero ID leaves that firewall attached, without a write if it already was, and no other unless another entity has the same ID |
| FirewallDevices.Cloud.SwitchFirewall | cloud/linode/services/firewalls.go:480-504 | attach before detach: the NodeBalancer is attached in every intermediate state, and rules are untouched; the old firewall is left exactly if the device found on it was the own one |
| FirewallDevices.Cloud.UpdateNodeBalancerFirewallWithACL | cloud/linode/services/firewalls.go:508-574 | it succeeds if and only if no call fails, the ACL is readable, at most one is attached and the ACL compiles where rules are to be written; a settled firewall is not written to, success settles it; if what was attached came from a compiler run and the ACL repeats no address, success means that every packet is decided as the ACL says |
| FirewallDevices.Cloud.CreateForAcl | cloud/linode/services/firewalls.go:522-541 | success leaves one new firewall attached that enforces the ACL |
| FirewallDevices.Cloud.UpdateForAcl | cloud/linode/services/firewalls.go:542-568 | the rules are rewritten exactly when the change test says so |
| FirewallDevices.Cloud.DetachAndCleanUp | cloud/linode/services/firewalls.go:391-428 | it succeeds if and only if no call fails and at most one is attached; unless another entity has the same ID, success detaches, and deletes the firewall if and only if nothing else was attached; it never deletes a firewall that has a device |
| FirewallDevices.Cloud.DetachFrom | cloud/linode/services/firewalls.go:404-427 | with one attached firewall, success without a failing call and only then |
| FirewallDevices.Cloud.GetNodeBalancerDeviceID | cloud/linode/services/firewalls.go:431-448 | the device of the first entity listed with the NodeBalancer's ID, of whatever kind |
| FirewallDevices.OwnDeviceIff | cloud/linode/services/firewalls.go:431-448 | that is the NodeBalancer's own device in every order of the listing if and only if no entity of another kind with its ID is attached too |
| FirewallDevices.DetachEffect | cloud/linode/services/firewalls.go:404-413 | deleting the device found detaches the NodeBalancer and keeps all others if and only if it was its own; otherwise the namesake loses its device and the NodeBalancer stays |
| FirewallDevices.Cloud.RemoveDevice | cloud/linode/services/firewalls.go:404-413 | removes the device found and nothing else |
| FirewallDevices.Cloud.DeleteFirewall | cloud/linode/services/firewalls.go:49-60 | deletes only with at most one device attached |
| FirewallDevices.Cloud.DeleteNodeBalancerFirewall | cloud/linode/services/firewalls.go:62-86 | deletes the one attached firewall if and only if it is not shared; two or more attached: no write |
| FirewallDevices.Cloud.ServeAll | cloud/linode/services/firewalls.go:62-574 | in any run of requests every write is a safe write for the NodeBalancer it was made for |
| FirewallDevices.BystandersStay | cloud/linode/services/firewalls.go:49-574 | over every run an entity keeps its devices until a write is made on its own behalf or for a NodeBalancer with its ID |
| FirewallDevices.DeletedOnlyWhenAlone | cloud/linode/services/firewalls.go:49-60 | a firewall deleted in a run had nothing attached but the NodeBalancer served, whatever IDs collide |
| FirewallDevices.SharedMeansTwo | cloud/linode/services/firewalls.go:55-58 | counting devices decides whether another entity is attached |
| FirewallDevices.EnforcedIsSettled | cloud/linode/services/firewalls.go:551-554 | an enforced ACL is settled, so the next reconcile writes nothing |
| FirewallDevices.SettledDecides | cloud/linode/services/firewalls.go:508-574 | a settled firewall with compiled rules decides every packet as the duplicate-free ACL says |
| NodeBalancer.Balancer.UpdateNodeBalancer | cloud/linode/loadbalancers.go:378-466 | without a failing call it succeeds if and only if every port can be built and every node has a backend IP of the wanted kind; success: config ports within the service's, every port served, and backend i of a port is node i's annotated, first internal or IPv6 address with the node port in decimal, bracketed exactly if it has a colon; one config per port if and only if no two wanted ones shared a port; on every path no wanted config is lost |
| NodeBalancer.Balancer.UpdatePort | cloud/linode/loadbalancers.go:393-462 | one port: only its config is touched, the first one listed for it or a new one, and success leaves one backend per node with old IDs kept; without a failing call it fails only if the port cannot be built or a node has no backend IP |
| NodeBalancer.Balancer.UpdatePorts | cloud/linode/loadbalancers.go:393-462 | the loop: without a failing call all ports are served if and only if each can be, and their old backends were listed |
| NodeBalancer.Balancer.FindConfig | cloud/linode/loadbalancers.go:393-408 | the first config listed for the port, if there is any |
| NodeBalancer.Balancer.DeleteUnusedConfigs | cloud/linode/loadbalancers.go:504-519 | removes only configs of ports not in the service, and on success all of them |
| NodeBalancer.BuildConfigNodes | cloud/linode/loadbalancers.go:1162-1187 | one option per node in order, with the ID listed for its address; fails exactly when a node has no backend IP |
| NodeBalancer.IdsByAddress | cloud/linode/loadbalancers.go:410-423 | maps each address to the ID of the last backend that has it |
| NodeBalancer.LastIDExact | cloud/linode/loadbalancers.go:410-423 | that ID is the one after which the address is not listed again |
| NodeBalancer.PrivateIP | cloud/linode/loadbalancers.go:1315-1332 | the annotation without a subnet, else the internal address before which there is none |
| NodeBalancer.KeepsIDExactly | cloud/linode/loadbalancers.go:1178-1183 | a backend keeps its old ID if and only if its address was already there |
| NodeBalancer.OneBackendPerNode | cloud/linode/loadbalancers.go:1162-1187 | nodes with different IPs have backends with different addresses and IDs |
| NodeBalancer.ConfigsMatchPorts | cloud/linode/loadbalancers.go:378-466 | config ports equal service ports and the configs are exactly the chosen ones |
| NodeBalancer.ServedAddressed | cloud/linode/loadbalancers.go:1158-1187 | served ports have the addresses of the nodes, in order |
| NodeBalancer.UpdateIsFixpoint | cloud/linode/loadbalancers.go:378-466 | a second successful update for the same service and nodes changes no config, backend or ID |
| NodeBalancer.ServesAgain | cloud/linode/loadbalancers.go:1162-1187 | rebuilding from the backends that already serve the nodes gives them back |
| NodeBalancer.JoinHostPortInjective | cloud/linode/loadbalancers.go:1158-1160 | different hosts have different backend addresses, bracketed or not |
| LbStatus.StatusRoundTrip | cloud/linode/loadbalancers.go:1391-1442 | the status written for a NodeBalancer leads back to it if and only if nothing listed before it fits the same status |
| LbStatus.StatusShows | cloud/linode/loadbalancers.go:1391-1442 | an ingress is in the status if and only if it has the hostname, and no address when only the hostname is wanted, else the IPv4 address or, when wanted and present, the IPv6 one |
| LbStatus.EveryIngressLeadsBack | cloud/linode/loadbalancers.go:160-182 | each ingress alone leads back to the NodeBalancer by its address, and by its hostname, if and only if nothing listed before it has that one and fits |
| LbStatus.UniqueAddressesRecoverable | cloud/linode/loadbalancers.go:160-182 | unique hostnames and IPv4 addresses suffice without the annotation |
| LbStatus.UniqueSubnetsRecoverable | cloud/linode/loadbalancers.go:628-636 | unique pairs of IPv4 and subnet suffice when the annotation names the own subnet in decimal |
| LbStatus.GetNodeBalancerByStatus | cloud/linode/loadbalancers.go:160-182 | in the stored status, or the given one if it cannot be fetched, the first ingress with a readable IP or a hostname decides; a failed listing is an error exactly when one does, else nothing is found |
| LbStatus.FirstUsableDecides | cloud/linode/loadbalancers.go:168-179 | the first ingress with a readable address or a hostname decides, by its address when that is readable |
| LbStatus.NoneUsable | cloud/linode/loadbalancers.go:168-181 | without such an ingress nothing is found |
| LbStatus.GetNodeBalancerByIP | cloud/linode/loadbalancers.go:613-642 | the first with that address that, given a subnet annotation, has a VPC frontend in that subnet; not found exactly if there is none; or the error of the listing |
| LbStatus.GetNodeBalancerByHostname | cloud/linode/loadbalancers.go:599-611 | the first with that hostname; not found exactly if there is none; or the error of the listing |
| LbStatus.ParsePrintedAddr | cloud/linode/loadbalancers.go:170-174 | a printed IPv4 address parses as itself |
| LbStatus.ReadExactly | cloud/linode/loadbalancers.go:170-174 | text is read as an IPv4 address if and only if it is its printed form |
| RouteController.Controller.RefreshRoutes | cloud/linode/route_controller.go:36-62 | nothing changes if and only if the last update is younger than the TTL; else the cache becomes exactly the records of the named VPCs whose listing did not fail |
| RouteController.Controller.RefreshKnows | cloud/linode/route_controller.go:36-62 | after a refresh without a failing call the cache is right about every interface that is its instance's only one and is on a named VPC |
| RouteController.Controller.CreateRoute | cloud/linode/route_controller.go:135-196 | with other calls in between, takes the steps of one call of a run, and succeeds if and only if the cache it saw has the range, or names an interface and the write does not fail; alone, it adds exactly the range to the one interface the cache names if and only if the cache lists it and it is there, or does not list it and is right about the others, and after its own refresh without a failing call it always does; IPv6 routes are only recorded |
| RouteController.Controller.AddRange | cloud/linode/route_controller.go:152-196 | the part of it for an IPv4 range of an instance that was found |
| RouteController.Controller.DeleteRoute | cloud/linode/route_controller.go:199-242 | likewise: it succeeds if and only if the cache it saw names an interface and the write does not fail; alone, it removes exactly the range if and only if the cache is right about all the others; no success without a write |
| Routes.GatherForCreate | cloud/linode/route_controller.go:158-184 | stops early exactly if the range is cached, else gathers all cached ranges and an interface if there is one |
| Routes.GatherForDelete | cloud/linode/route_controller.go:210-235 | gathers all cached ranges but the one deleted |
| RouteController.Controller.HandleInterfaces | cloud/linode/route_controller.go:245-275 | for both interface generations the effect is the same, and it fails only if the call does or the interface is not there, in its own config for a legacy one |
| Routes.File | cloud/linode/route_controller.go:55-57 | groups records by instance, losing and adding none |
| Routes.ListedInterface | cloud/linode/route_controller.go:46-58 | after a refresh the cache is right about an instance with one interface, or has no record of it when its VPC could not be listed |
| Routes.KnownInterface | cloud/linode/route_controller.go:158-190 | a cache that is right about an instance with one interface names that interface only, with its ranges |
| RouteController.Controller.ServeAll | cloud/linode/route_controller.go:36-242 | any requests for any instances, with other calls in between, failing calls and failing listings, make a run, and every interface that is its instance's only one is explained by its last writer |
| RouteRuns.RunLeaves | cloud/linode/route_controller.go:36-242 | in every state of every run such an interface holds what it started with, or the ranges it had at the last refresh before its last writer looked, changed by that call alone; nothing but ranges changes |
| RouteRuns.OneEpoch | cloud/linode/route_controller.go:36-242 | between two refreshes an interface holds the ranges of the first, changed by the last write alone, whatever is done to other instances |
| RouteRuns.SuccessExactIff | cloud/linode/route_controller.go:135-242 | in any run a write has exactly its effect if and only if the interface still has the other ranges it had at the refresh the call built on; a create that found its range, if and only if it is there |
| RouteRuns.CallInRunExactIff | cloud/linode/route_controller.go:135-242 | between two refreshes, a success has exactly its effect if and only if the last change allows it: a delete or a new route needs it to be none or its own, a route the cache lists needs it not to be its deletion |
| RouteRuns.CallSees | cloud/linode/route_controller.go:94-109 | what a call finds in the cache are the ranges of the last refresh, or nothing if that could not list the VPC |
| RouteRuns.RecordStands | cloud/linode/route_controller.go:94-109 | a record seen in the cache at any time of a run names an interface that is there, in the config it names |
| RouteRuns.CreateThenDelete | cloud/linode/route_controller.go:135-242 | a new route created and deleted again leaves the interface as it was, through any refreshes, failed listings and calls for other instances |
| RouteRuns.CreateTwiceWithinTTL | cloud/linode/route_controller.go:36-196 | two creates that look at the same refresh: after the second the first route is gone |
| RouteRuns.LosingRun | cloud/linode/route_controller.go:36-196 | a whole run in which two creates succeed and one route is left |
| RouteRuns.DeleteThenCreateWithinTTL | cloud/linode/route_controller.go:36-242 | a route deleted and then found in the cache by a create: both calls succeed and the route is gone |
| Instances.NodeCache.LookupLinode | cloud/linode/services/instances.go:250-277 | with other refreshes between its steps, each lookup reads one complete fetch that was younger than the TTL or made since the call began; ID before name before IP; the refresh error exactly when the last update is not younger than the TTL and a call for the instances or for a named VPC fails |
| Instances.OneContentIff | cloud/linode/services/instances.go:271-276 | a lookup that straddles a refresh answers as one content of the cache would if and only if the refresh does not bring in the name, or what the IP finds agrees |
| Instances.MissedBetween | cloud/linode/services/instances.go:271-276 | an instance that each of two contents has can be reported as not found between them |
| Instances.NodeCache.Interfere | cloud/linode/services/instances.go:83-159 | any refreshes of other callers keep the cache the content of the last complete fetch |
| Instances.NodeCache.RefreshInstances | cloud/linode/services/instances.go:83-159 | within the TTL nothing changes; else it succeeds exactly if no call fails, and the cache becomes that fetch; a failed call leaves cache and stamp as they were |
| Instances.NodeCache.LinodeByName | cloud/linode/services/instances.go:214-224 | some cached instance with the label, if there is one |
| Instances.NodeCache.LinodeByIP | cloud/linode/services/instances.go:191-212 | some cached instance sharing a public IPv4 address with the node, if there is one |
| Instances.GetInstanceAddresses | cloud/linode/services/instances.go:44-79 | VPC IPv4, instance IPv4, VPC IPv6, public IPv6, each in order |
| Instances.AddressesRearranged | cloud/linode/services/instances.go:44-79 | the list is a rearrangement of what was given: nothing lost, nothing added |
| Instances.AddressPlaces | cloud/linode/services/instances.go:44-79 | which place each given address has in the list, and as what kind |
| Instances.PublicIPv4First | cloud/linode/services/instances.go:47-50 | the first external address is the first public IPv4 address whenever there is one |
| Instances.NodesOfExact | cloud/linode/services/instances.go:143-154 | with distinct IDs the cache holds exactly the instances kept, each with its own addresses |
| Instances.KeptExact | cloud/linode/services/instances.go:143-149 | with VPC names configured an instance is kept if and only if some record gives it an address |
| Instances.GatherVpcs | cloud/linode/services/instances.go:106-140 | succeeds exactly if neither call for any named VPC fails, and gathers from all of them |
| Instances.CompleteVpcsIff | cloud/linode/services/instances.go:106-140 | the answers are complete if and only if both calls for every name that is not blank were answered |
| Instances.CompleteVpcsPlaces | cloud/linode/services/instances.go:106-140 | they are then the answers to those names, each at its place |
| Instances.CompleteExact | cloud/linode/services/instances.go:83-159 | a fetch is complete if and only if no call failed; it has the listed instances and these VPCs |
| Instances.GatherAllAt | cloud/linode/services/instances.go:117-138 | what the loops gather for an instance are its addresses in the order of the answers |
| Instances.VpcIPsMembers | cloud/linode/services/instances.go:117-138 | an address is an instance's if and only if some record of some VPC gives it to that instance |
| Instances.VpcIPsInOrder | cloud/linode/services/instances.go:117-138 | VPC by VPC, IPv4 before IPv6, record by record |
| Instances.AppendIPv4 | cloud/linode/services/instances.go:117-122 | appends the IPv4 addresses of one VPC to their instances |
| Instances.AppendIPv6 | cloud/linode/services/instances.go:128-139 | appends the IPv6 addresses and records their kinds, a later record winning |
| Instances.VpcKindsExact | cloud/linode/services/instances.go:128-139 | an IPv6 address is external if and only if the last record that names it is public |
| NodeQueue.NodeController.AddNodeToQueue | cloud/linode/node_controller.go:212-218 | the new request is queued as its node's newest, whatever the clock does |
| NodeQueue.NodeController.CheckLatest | cloud/linode/node_controller.go:234-240 | skips exactly the requests older than the last stamp, never the newest |
| NodeQueue.NodeController.Take | cloud/linode/node_controller.go:227-240 | the first request in the queue, which goes on exactly if it is not older than its node's stamp at the test |
| NodeQueue.NodeController.Settle | cloud/linode/node_controller.go:241-251 | a retriable failure is delayed, any other outcome finishes the request |
| NodeQueue.NodeController.ProcessNext | cloud/linode/node_controller.go:227-255 | with events between its steps, keeps the newest request of every node queued, delayed, in progress or finished; under a monotone clock a request that is outdated is skipped, and one that is not outdated even at the end is handled, with the answer of its handler as the outcome |
| NodeQueue.NodeController.NewestNotSkipped | cloud/linode/node_controller.go:234-240 | under a monotone clock the newest request has never been skipped |
| NodeQueue.NodeController.Interfere | cloud/linode/node_controller.go:180-209 | any number of events and ended delays keep the invariant, forget no node and no waiting request, and under a monotone clock set no stamp back |

## Left out

- IPAM liveness, retry timing, events and metrics: the theorems are about safety over all runs.
- IpamNecessity.BurstPremiseNeeded: leaves out a block whose only other claim is that of a worker out of attempts, which can no longer write it; nothing is shown to go wrong in that case.
- IpamWorker.Cluster.AllocateOrOccupyCIDR: occupying does not fail, since a node block has the node mask size; `OccupyCIDRs` has the error cases.
- IpamWorker.Cluster.AllocateCIDR: whether an IPv6 allocation succeeds is a parameter; the instance and interface lookups before the range is parsed are not modelled.
- IpamWorker.Cluster.UpdateCIDRsAllocation: compares the IPv4 block only, because an equal block is proved impossible.
- IpamAllocator.NewAllocator: the answers of the API are parameters; building the CIDR set does not fail; the upstream constructor is not part of this model.
- The internals of the upstream CIDR set, of `net`, `netip` and the work queue: contracts only.
- Firewall rule labels and descriptions, and JSON decoding of annotations: the model starts from decoded values.
- FirewallDevices.Cloud.CreateForAcl: a firewall created but not attached when the second call fails is left behind, as in the code; no claim is made about cleaning it up.
- NodeBalancer.Balancer.UpdateNodeBalancer: throttle, tags, TLS, protocol settings, weights, labels and the firewall update before the ports are not modelled, and two service ports with one number (TCP and UDP) are outside its per-port clauses.
- The backend subnet precedence of create requests and the `vpc.go` name caches: name lookups are fixed values.
- LbStatus.GetNodeBalancerByStatus: reading IPv6 text is a parameter, since a status that leads back to its NodeBalancer is decided by its IPv4 ingress; `EveryIngressLeadsBack` needs it to read the listed IPv6 text as itself.
- Routes: `ListRoutes` is not modelled.
- RouteController.Controller.RefreshRoutes: all VPCs are listed in one state, because the code holds the lock of the cache meanwhile; a write by a call that looked before is not placed between two listings.
- RouteController.Controller.HandleInterfaces: an answer without VPC data, which the code takes for a success, is a success that has written.
- Instances.NodeCache.LookupLinode: provider ID parsing is a given value.
- NodeQueue.NodeController.ProcessNext: queue shutdown and `handleNode` itself are not modelled; its answer is a parameter.
- The Kubernetes node cache, flag and annotation validation, health checks and token handling would only add easy members.
