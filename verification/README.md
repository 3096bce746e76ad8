# Verified models of pafio's core algorithms

This project states, in Dafny, what the algorithmic core of pafio is for, and proves it: the container
scheduler of the cloud stress tool, the single-version resolver and the build order it feeds, the static
registry with its transparency log and its client, the source archive writer, SHA-256, the canonical
lockfile, and the dependency tree printer. `dafny verify dfyconfig.toml` checks everything.

Code that changes state step by step is modelled as classes and methods with the same fields, branches and
loops; each method is tied to a specification function or to an outright property, and the theorems are
proved about those. Randomness, the file system, git, the network and the clock are parameters: any draws,
any finite world of manifests, any hash function and any encodings.

## What is modelled

**Container scheduler** (`SchedulerModel`, `SchedulerInvariant`, `SchedulerRun`, `SchedulerReplacements`,
`SchedulerTheorems`, `SchedulerLifecycle`, `SchedulerSummary`, `StressRunner`). `StressRunner.Runner` is the
event loop with its container and tenant objects, completion heap and counters. One invariant couples them:
heap size and `in_flight`, the heap entries and `active_jobs` of every container, accepted = active +
completed jobs, the tenant counters, pool sizes, and two bounds on work and time. From it follow absence of
deadlock, termination of every waiting loop, conservation at the end of a run, the work and makespan bounds,
a proof that no run ever refuses a hot replacement, and an exact description of the gate's reasons by
configuration and draws alone, in which percentiles are counts of values. Every run is a chain of the runner's own eight moves, each with its condition,
and each phase change belongs to exactly one of them. All of it holds for every configuration that validates and all draws within the configured
latencies.

**Resolver and build order** (`WorkspaceRoots`, `ResolverModel`, `ResolverGraph`, `Resolver`,
`ResolverTheorems`, `ResolverProject`, `ProjectResolution`, `PackageOrder`, `ResolvedOrder`). The memoised
recursion over vectors and two index maps is proved against an order-free specification, the closure of the
seeds under selection. The memo key is a string, and everything rests on what it identifies: a completed
resolution stands for the whole closure if and only if equal keys mean interchangeable packages (`Coherent`).
`ResolverProject` builds world and seeds from manifests, workspaces, git snapshots and registry checkouts as
the code does and determines when that is so: exactly when, beside a root package, the manifest that its
directory names is not resolved or declares the same package. A caller can check for another package there
before the call. `ProjectResolution` runs a project from root manifest to lockfile under that check,
and a project without it for which the run succeeds, silently without one of its two root packages. The
three-colour search returns a topological order exactly for acyclic graphs without dangling ids and otherwise
a real cycle or a real unknown id; on resolver output unknown ids cannot occur.

**Registry v2** (`RegistryModel`, `RegistrySafety`, `RegistryPublish`, `RegistryHistory`, `RegistryLog`,
`RegistryPublisher`, `RegistryClient`, `RegistryAcceptance`, `RegistryRuns`, `RegistryProject`). A publish is a plan of single-file writes;
`RegistryPublisher.RegistryRoot` performs exactly that plan. A history is any sequence of publishes, each cut
off after any number of its writes. Every write is shown safe in the state in which it happens, hence every
prefix of every history is consistent, checkpoints stay true, and nothing stored is ever lost. Hashes are
uninterpreted: statements that need binding end in "equal, or here is a collision". The client is modelled
separately and proved to find exactly what was published. For the verifier it is decided, attempt by attempt
and by the place of the cut, which histories leave a root that it accepts. `RegistryProject` carries what
histories guarantee over to the resolver.

**Archive** (`Bytes`, `UstarModel`, `UstarReader`, `TarWriter`). The header is filled in place as in the
source; a reader written from the "ustar Interchange Format" of the pax utility in IEEE Std 1003.1 gives back
exactly the entries written, precisely when no path contains a NUL.

**SHA-256** (`Primes`, `Fips180`, `Sha256`). The streaming hasher with its 64-byte buffer refines sections 4.1.2, 5.1.1,
5.2.1 and 6.2.2 of FIPS 180-4 for every split of the input. Its constants are checked against what sections
4.2.2 and 5.3.3 say of them, roots of the first primes (`Primes`).

**Lockfile** (`LockfileText`, `LockfileReading`, `Lockfile`, `Patterns`, `LockfileInverse`,
`GeneratedLockfile`). The
canonical text is read back exactly, does not depend on the order of packages or dependencies, and fixes
everything else; and in that format no other text reads as the same document. What a resolution writes the
loader accepts, exactly when every node has what the loader asks for. So the staleness check, which
compares the raw text of a file, compares content, whoever wrote the file.

**Dependency tree** (`TreeRender`). The recursive printer with its shared path set terminates on every graph
and prints one line for each path that deserves one, in order.

`Wrappers`, `Counting`, `Sorting` and `PackageNames` hold what several of these share.

## Model

| member | source | states |
|---|---|---|
| StressRunner.RunStress | src/pafio_cloud_stress/runner.py:448-455 | a summary exactly for valid configurations; all jobs finished, failures as drawn, nothing draining, retired = replaced = asked for, pools at full size, the makespan as the last finish with both its bounds, each latency figure what its name says of the draws, every tenant its round-robin share, each reason of the gate listed iff counting the draws gives it, and the verdict |
| StressRunner.Validate | src/pafio_cloud_stress/runner.py:32-58 | an error for exactly those checks that fail, and none exactly for valid configurations |
| StressRunner.Runner.constructor | src/pafio_cloud_stress/runner.py:104-126 | empty heap and log, one tenant record per tenant |
| StressRunner.Runner.Run | src/pafio_cloud_stress/runner.py:128-161 | refuses an invalid configuration untouched; otherwise ends in the specified final state |
| StressRunner.Runner.CreateContainer | src/pafio_cloud_stress/runner.py:170-194 | one new container object with the next generation, warming or active by its activation time; everything else unchanged |
| StressRunner.Runner.ProcessWarmups | src/pafio_cloud_stress/runner.py:196-206 | exactly the due warming containers become active |
| StressRunner.Runner.NextWarmupTime | src/pafio_cloud_stress/runner.py:208-214 | the loop finds the specified next warm-up |
| SchedulerModel.NextWarmupIsEarliest | src/pafio_cloud_stress/runner.py:208-214 | a next warm-up exists iff a container is still to warm up, and it is the earliest of them |
| StressRunner.Runner.HotReplaceTenant | src/pafio_cloud_stress/runner.py:216-241 | drains the chosen container and creates its replacement, or records a rejection, on the objects themselves |
| SchedulerInvariant.HotReplaceKeepsInv | src/pafio_cloud_stress/runner.py:216-241 | replacing or rejecting keeps the whole invariant, in particular the pool size of every tenant |
| SchedulerInvariant.HotReplaceAnswers | src/pafio_cloud_stress/runner.py:216-241 | every request is either one replacement or one rejection, and touches neither heap nor clock |
| SchedulerReplacements.RejectedIffAllWarming | src/pafio_cloud_stress/runner.py:216-226 | between two operations a request is refused iff every live container of the tenant is warming up; never without warm-up time |
| SchedulerReplacements.JobRunServes | src/pafio_cloud_stress/runner.py:139-153 | a job leaves its own tenant with an active container, and every other tenant that had one and was not asked for a replacement |
| SchedulerReplacements.RequestsApart | src/pafio_cloud_stress/runner.py:140-146 | two replacement requests for one tenant are at least one full round of jobs apart |
| SchedulerReplacements.AskedInService | src/pafio_cloud_stress/runner.py:140-146 | whenever a run asks for a replacement, that tenant has an active container |
| SchedulerReplacements.NoViolations | src/pafio_cloud_stress/runner.py:223-226 | no run ever records a violation: every replacement asked for is carried out, and isolation and capacity hold |
| StressRunner.Runner.RetireIfIdle | src/pafio_cloud_stress/runner.py:243-251 | a draining container without jobs retires, no other changes |
| StressRunner.Runner.FindLightest | src/pafio_cloud_stress/runner.py:254-265 | the loop finds the specified container |
| SchedulerModel.LightestIsLeast | src/pafio_cloud_stress/runner.py:254-265 | a container is found iff a wanted one exists; no wanted one has fewer active jobs, at equally many none has accepted fewer, at both equal none is older, and of equals the first is taken |
| StressRunner.Runner.AcquireContainer | src/pafio_cloud_stress/runner.py:253-265 | waits, terminates, and returns an active container of the tenant with room that no other one with room is lighter than |
| SchedulerRun.AcquiredStep | src/pafio_cloud_stress/runner.py:253-265 | without a free container there is an event to wait for, and waiting keeps the invariant and uses up pending work |
| StressRunner.Runner.StartJob | src/pafio_cloud_stress/runner.py:267-305 | books the job on container and tenant, draws its latency, pushes its completion |
| SchedulerInvariant.StartedKeepsInv | src/pafio_cloud_stress/runner.py:267-305 | starting a job on a free active container of its tenant keeps the invariant and adds no violation |
| SchedulerModel.PushIndexSeparates | src/pafio_cloud_stress/runner.py:286-297 | a completion enters the heap behind all that are due before it and in front of one that is due after it, by time and then by sequence |
| SchedulerInvariant.PushKeepsOrder | src/pafio_cloud_stress/runner.py:286-297 | pushing the completion of a later job keeps the heap in the order in which it is popped |
| StressRunner.Runner.AdvanceToNextEvent | src/pafio_cloud_stress/runner.py:307-323 | reports failure and changes nothing exactly when no event is left; otherwise takes the earlier of first completion and next warm-up, completions first on a tie |
| SchedulerInvariant.AdvanceKeepsInv | src/pafio_cloud_stress/runner.py:307-323 | one event keeps the invariant and strictly lowers heap size plus warming containers |
| SchedulerInvariant.AdvanceFrame | src/pafio_cloud_stress/runner.py:307-323 | the clock never goes back; nothing is started, rejected or replaced |
| SchedulerInvariant.WarmupAdvanceKeeps | src/pafio_cloud_stress/runner.py:321-323 | moving the clock to the next warm-up activates at least one replacement and keeps all bounds |
| SchedulerInvariant.SomeEventRemains | src/pafio_cloud_stress/runner.py:307-312 | no deadlock: whenever the run would wait, an event remains, so the error is unreachable |
| StressRunner.Runner.FinishJob | src/pafio_cloud_stress/runner.py:325-344 | books the completion, records the latency, retires the container if it was the last one draining |
| SchedulerInvariant.PopAndFinishKeeps | src/pafio_cloud_stress/runner.py:314-344 | finishing the earliest job keeps the coupling of heap, containers, tenants and logs, and both bounds |
| SchedulerRun.InitialInv | src/pafio_cloud_stress/runner.py:134-137 | the filled pools satisfy the invariant |
| SchedulerRun.WaitForLaneStep | src/pafio_cloud_stress/runner.py:148-149 | with all lanes busy there is an event, and one turn of the loop keeps the invariant and makes progress |
| SchedulerRun.ReplacementsAskedStep | src/pafio_cloud_stress/runner.py:140-146 | the quotient counts exactly the jobs that ask for a replacement |
| SchedulerRun.Simulated | src/pafio_cloud_stress/runner.py:128-161 | the run is total for every valid configuration and ends with an empty heap, all jobs started and every replacement request answered |
| SchedulerTheorems.EveryJobFinishesOnce | src/pafio_cloud_stress/runner.py:139-156 | every job starts and finishes exactly once, with the drawn outcome, on the container it was started on, an own one of its tenant |
| SchedulerTheorems.TenantShares | src/pafio_cloud_stress/runner.py:151-153 | tenant i starts and finishes exactly (jobs - i + tenants - 1) div tenants jobs, of which those fail that were drawn so, and created its pool plus its replacements |
| SchedulerTheorems.PoolsAtTheEnd | src/pafio_cloud_stress/runner.py:351-369 | nothing draining, retired = replaced, active + warming = full pools, no violation, and exactly (jobs - 1) div hot_replace_every replacements |
| SchedulerTheorems.WorkBound | src/pafio_cloud_stress/runner.py:148-153 | all drawn latencies together are at most concurrency times makespan |
| SchedulerTheorems.MakespanBound | src/pafio_cloud_stress/runner.py:402 | makespan is at most jobs * compile_max_ms + hot_replacements * container_warmup_ms |
| SchedulerTheorems.MakespanIsLastFinish | src/pafio_cloud_stress/runner.py:314-318 | the makespan is the time at which the last job finished |
| SchedulerLifecycle.RunEvolves | src/pafio_cloud_stress/runner.py:408-412 | from any job on, and to the end, a run is a chain of the runner's moves (clock tick, warm-up, rejection, draining, replacement, retiring, start, completion), each made only when it is enabled |
| SchedulerLifecycle.PhaseChanges | src/pafio_cloud_stress/runner.py:408-414 | warming to active is exactly what a due warm-up does, active to draining what draining that container does, draining to retired what retiring it does without jobs; nothing else changes a phase, and only a start on an active container accepts a job |
| SchedulerLifecycle.MoveIsStep | src/pafio_cloud_stress/runner.py:408-415 | every move takes each container at most one phase on, creates at most one container, and only appends to the logs |
| SchedulerLifecycle.EvolvesLater | src/pafio_cloud_stress/runner.py:408-415 | over any chain of moves no phase is revisited, nothing is renamed, draining containers accept nothing, retired ones never change, new ones are replacements, logs and clock only grow |
| SchedulerLifecycle.HeadIsRunning | src/pafio_cloud_stress/runner.py:325-328 | the container of the next completion has a job to finish and is active or draining |
| SchedulerSummary.PercentileIsNearestRank | src/pafio_cloud_stress/runner.py:440-445 | the percentile is a recorded value with at least pct per cent of the values at or below it and less than that strictly below |
| SchedulerSummary.NearestRankWithin | src/pafio_cloud_stress/runner.py:361-362 | a percentile keeps a limit iff at least that many per cent of the values do |
| SchedulerSummary.RateExceedsMeans | src/pafio_cloud_stress/runner.py:350-360 | the observed rate exceeds the limit iff more jobs failed than the limit times the finished jobs |
| StressRunner.Runner.BuildSummary | src/pafio_cloud_stress/runner.py:346-423 | the summary computed from the objects, tenant payload and latency block included, is that of the final state |
| SchedulerTheorems.TotalsOfDraws | src/pafio_cloud_stress/runner.py:347-350 | finished and failed totals are those of the configuration and the draws |
| SchedulerSummary.LatencyBlockMeans | src/pafio_cloud_stress/runner.py:426-437 | min and max are recorded values bounding all others; p50, p95 and p99 are recorded values with at least 50, 95 and 99 per cent of the values at or below them and less strictly below; the average times the count is the sum |
| SchedulerTheorems.LatencyOfDraws | src/pafio_cloud_stress/runner.py:426-437 | all latency figures are those of the drawn latencies, whatever the schedule was |
| SchedulerTheorems.IdleBehindLastJob | src/pafio_cloud_stress/runner.py:367-369 | a tenant finishes nothing iff its number is not below that of the jobs |
| SchedulerTheorems.SharesReported | src/pafio_cloud_stress/runner.py:371-382 | what the summary says of a tenant is its share of the draws: jobs, failures, exact rate, containers |
| SchedulerTheorems.GateVerdict | src/pafio_cloud_stress/runner.py:356-369 | each reason is listed iff counting the draws gives it: failures against the rate, latencies within the limit against 95 per cent, replacements due, tenants without a job; nothing else ever is |
| SchedulerTheorems.GatePasses | src/pafio_cloud_stress/runner.py:418-420 | so the gate passes iff all four conditions on configuration and draws hold, whatever the schedule was |
| WorkspaceRoots.BuildRootSeeds | src/PafioResolve/Resolver.cpp:485-540 | fails iff some member is excluded, missing or without package, with the error of the first such member; otherwise the seeds and their directories |
| WorkspaceRoots.RootSeedsExact | src/PafioResolve/Resolver.cpp:485-540 | the seeds are exactly the root's own package and its members, each once, in path order, compared component by component |
| Sorting.NamesWithin | src/PafioResolve/Resolver.cpp:526-532 | paths in one directory are in the order of their names |
| Sorting.ContentsBehind | src/PafioResolve/Resolver.cpp:526-532 | a directory comes before everything in it |
| Sorting.DirectoriesApart | src/PafioResolve/Resolver.cpp:526-532 | what is in two directories side by side is in the order of their names |
| Sorting.LexIsDictionary | src/PafioManifest/Lockfile.cpp:244-250 | strings are in the order of a dictionary: a prefix first, otherwise by the first character in which they differ |
| WorkspaceRoots.SeedsIgnoreMemberOrder | src/PafioResolve/Resolver.cpp:501-539 | the order in which a manifest lists its members, and repetitions among them, do not matter |
| WorkspaceRoots.SelectPackageManifestFromRoot | src/PafioResolve/Resolver.cpp:542-619 | the loops compute the selection that the resolver's world uses, with its manifest, kind and exact error |
| WorkspaceRoots.SelectedExact | src/PafioResolve/Resolver.cpp:542-619 | a manifest is selected iff every member that is not excluded is in order and the target is listed exactly once, there |
| WorkspaceRoots.SelectedErrors | src/PafioResolve/Resolver.cpp:542-603 | otherwise the reason: no name for a bare workspace, the first member out of order, no listing, or more than one |
| ResolverProject.SelectExact | src/PafioResolve/Resolver.cpp:621-682 | what a path, git or registry dependency selects, field by field: the one listed manifest, inside the snapshot for git parents, with the pinned source or, locally, the kind of its directory |
| ResolverProject.LocalKind | src/PafioResolve/Resolver.cpp:605-613 | a reachable local package is a workspace package iff a seed is in its directory |
| ResolverProject.LocalMeetsSeed | src/PafioResolve/Resolver.cpp:605-613 | and then it has that seed's fingerprint |
| ResolverModel.LockIdSeparates | src/PafioResolve/Resolver.cpp:148-160 | equal lock ids of packages with valid names mean equal kind and name |
| ResolverModel.CollectedExact | src/PafioResolve/Resolver.cpp:162-176 | what is collected are the dependencies and development dependencies, each as often as declared, in the order of aliases |
| ResolverModel.FingerprintIdentifiesSource | src/PafioResolve/Resolver.cpp:135-146 | equal fingerprints of separator-free origins mean the same source at the same place |
| ResolverModel.SameSourceSameFingerprint | src/PafioResolve/Resolver.cpp:135-146 | and one source at one place has one fingerprint |
| ResolverModel.RegularWorldCoherent | src/PafioResolve/Resolver.cpp:135-146 | whatever the selection code: where a source fixes its packages and separators do not occur, fingerprints identify what they stand for |
| Resolver.SingleVersionResolver.ResolveNode | src/PafioResolve/Resolver.cpp:684-787 | keeps nodes and both index maps exact inverses, only grows them, terminates on cyclic graphs, finishes every node it adds, and refuses only where the specification does or a shown memo key stands for two packages |
| Resolver.SingleVersionResolver.NameConflict | src/PafioResolve/Resolver.cpp:717-732 | a known name at a new fingerprint is always a version or a source conflict, so the last return is unreachable |
| Resolver.SingleVersionResolver.ResolveDependency | src/PafioResolve/Resolver.cpp:741-774 | the id of the selected package, of the expected name and not the node itself; refuses only where the specification does or a shown memo key stands for two packages |
| Resolver.SingleVersionResolver.ResolveGraph | src/PafioResolve/Resolver.cpp:388-452 | on success the graph is complete for the seeds and for the first seeds of each fingerprint; on failure the specification refuses the latter or a memo key misleads |
| ResolverGraph.RefusedMeans | src/PafioResolve/Resolver.cpp:690-732 | where fingerprints are adequate, a refusal is one of the specification's |
| ResolverGraph.MisleadsIncoherent | src/PafioResolve/Resolver.cpp:690-693 | a memo key that stands for two packages is a failure of adequacy |
| ResolverTheorems.NodesAreTheClosure | src/PafioResolve/Resolver.cpp:684-787 | a fingerprint has a node iff it is one of a reachable selection |
| ResolverTheorems.ClosureIffCoherent | src/PafioResolve/Resolver.cpp:684-787 | a completed resolution has, for every reachable selection, a node with an interchangeable package, if and only if equal fingerprints mean interchangeable packages |
| ResolverTheorems.CompleteSound | src/PafioResolve/Resolver.cpp:741-768 | after success every reachable package's dependencies select existing, expected, different packages |
| ResolverTheorems.ResolveSingleVersionGraph | src/PafioResolve/Resolver.cpp:388-452 | resolution succeeds iff every reachable dependency is sound and no two reachable fingerprints share a name, as soon as fingerprints are adequate for the seeds, or for the first seeds of each fingerprint; every refusal has one of two shown reasons |
| ResolverTheorems.IdsDistinct | src/PafioResolve/Resolver.cpp:148-160 | lock ids of different nodes differ |
| ResolverTheorems.DependenciesArePackages | src/PafioResolve/Resolver.cpp:757-785 | every dependency id is the id of another package of the graph |
| ResolverTheorems.OrderIndependent | src/PafioResolve/Resolver.cpp:388-452 | the resolution depends on the set of seeds, not on their order or the order of visits |
| ResolverProject.EdgeWellSelected | src/PafioResolve/Resolver.cpp:621-682 | every path, git and registry dependency selects a manifest named by its directory, with an origin that its source fixes |
| ResolverProject.FingerprintIdentifies | src/PafioResolve/Resolver.cpp:135-146 | for separator-free sources and one release per artifact digest, two such selections with one fingerprint are one selection |
| ResolverProject.CoherentIffTwinHarmless | src/PafioResolve/Resolver.cpp:684-693 | for separator-free sources and one release per artifact digest, fingerprints of a project are adequate iff, beside a root package, the manifest its directory names is not reachable or declares the same package |
| ResolverProject.TwinsInterchange | src/PafioResolve/Resolver.cpp:135-146 | two local selections in one directory are interchangeable iff their manifests declare the same package |
| ResolverProject.StandardRootCoherent | src/PafioResolve/Resolver.cpp:368-375 | under the same two conditions they are adequate for a root manifest with its directory's manifest name, or without package |
| ResolverProject.LoneRootCoherent | src/PafioResolve/Resolver.cpp:368-375 | and for any root manifest beside which there is no other package |
| ResolverProject.PlainPinsSeparate | src/PafioResolve/Resolver.cpp:642-682 | if git and the registry hand out sources without separators, no reachable origin has one |
| RegistryProject.OneRecordPerDigest | src/pafio_registry_v2/publisher.py:219-240 | as archives carry their name and version, two records of one root with one digest are one record, or two published archives collide |
| RegistryProject.PublishedOneRelease | src/PafioRegistryClient/Client.cpp:776-805 | when a project's registry answers are what the client finds in published roots, one digest means one release and one checkout, or a root exhibits a collision |
| ResolverProject.SeparatorsCollide | src/PafioResolve/Resolver.cpp:135-146 | with a separator in them, two different git pins share a fingerprint |
| ProjectResolution.ResolveProject | src/PafioResolve/Resolver.cpp:805-808 | from root manifest to resolution: in a project that passes the caller's check it succeeds iff the members can be seeds and the whole closure is sound and free of name conflicts |
| ProjectResolution.RegularIsWhole | src/PafioResolve/Resolver.cpp:684-787 | in such a project a completed resolution has a node for every reachable selection, with an interchangeable package |
| ProjectResolution.RegularIsUnique | src/PafioResolve/Resolver.cpp:388-452 | and it is the same in whatever order roots and dependencies are visited |
| ProjectResolution.OddResolution | src/PafioResolve/Resolver.cpp:690-693 | a concrete project that fails the check: its run succeeds although the specification refuses it, without one of its root packages |
| ProjectResolution.OddPackageDropped | src/PafioResolve/Resolver.cpp:690-693 | no complete graph of that project contains the package |
| ProjectResolution.OddUnresolvable | src/PafioResolve/Resolver.cpp:741-768 | the dropped package is a root with a dependency that selects nothing |
| PackageOrder.BuildOrder.Visit | src/PafioPlan/CompilePlan.cpp:447-473 | colours, stack and order stay in step; what a visit returns is an order extended by the id, a cycle, or an unknown id |
| PackageOrder.BuildOrder.IndexOf | src/PafioPlan/CompilePlan.cpp:455 | the first occurrence on the stack, where the cycle begins |
| PackageOrder.TopologicalAcyclic | src/PafioPlan/CompilePlan.cpp:434-487 | a topological order of all ids excludes cycles and unknown ids |
| PackageOrder.BuildPackageOrder | src/PafioPlan/CompilePlan.cpp:434-487 | an order iff the graph is acyclic and closed, then every id once with dependencies first, as the depth-first walk from the ids in order lists them; otherwise a real cycle of edges or a real unknown id |
| PackageOrder.OrderIgnoresListing | src/PafioPlan/CompilePlan.cpp:475-486 | the order does not depend on how the packages are listed |
| PackageOrder.ByIdFirst | src/PafioPlan/CompilePlan.cpp:436-440 | of several packages with one id the first counts |
| ResolvedOrder.ResolvedGraphIsClosed | src/PafioResolve/Resolver.cpp:757-785 | on resolver output no id dangles and no package depends on itself |
| ResolvedOrder.PlanOrder | src/PafioPlan/CompilePlan.cpp:125-135 | on resolver output the unknown-id error is unreachable and every cycle has at least two different packages |
| TreeRender.ListingExact | src/PafioTree/Render.cpp:11-58 | the listed paths are exactly those that deserve a line, each once, in depth-first order |
| TreeRender.Renderer.RenderNode | src/PafioTree/Render.cpp:11-58 | appends exactly the lines of the listed paths and restores the path set, on every graph |
| TreeRender.RenderDependencyTreeText | src/PafioTree/Render.cpp:65-85 | the trees of all roots, separated by blank lines |
| RegistrySafety.WriteKeepsInv | src/pafio_registry_v2/publisher.py:515-563 | one safe write keeps: leaves name index records, records name stored artifacts, releases are indexed, versions distinct, leaves contiguous, checkpoint a chain hash |
| RegistrySafety.PrefixSafe | src/pafio_registry_v2/publisher.py:515-563 | so does every prefix of safe writes, and nothing stored is lost |
| RegistryPublish.ReleasePlanSafe | src/pafio_registry_v2/publisher.py:515-563 | artifact, index line and leaf are safe in this order; refused iff the name is invalid or the version known |
| RegistryPublish.RefreshPlanSafe | src/pafio_registry_v2/publisher.py:447-512 | targets, checkpoint, snapshot and timestamp are safe, never fail on a consistent root, and lead to the refreshed root |
| RegistryPublish.PublishPlanSafe | src/pafio_registry_v2/publisher.py:566-632 | a whole publish is safe write by write, with exactly three reasons for refusal |
| RegistryHistory.CrashSafe | src/pafio_registry_v2/publisher.py:397-563 | after any publishes, each cut off after any of its writes, the root is consistent |
| RegistryHistory.HistoryExtends | src/pafio_registry_v2/publisher.py:515-563 | later roots keep every artifact, index line and leaf of earlier ones |
| RegistryHistory.CheckpointsStayTrue | src/pafio_registry_v2/publisher.py:464-478 | every checkpoint ever written is the chain hash of the first tree_size leaves of every later state |
| RegistryHistory.CheckpointsAdvance | src/pafio_registry_v2/publisher.py:464-478 | of two checkpoints ever written, whatever crashed in between, the later has a higher version and covers at least as many leaves |
| RegistryHistory.LogBinds | src/pafio_registry_v2/publisher.py:82-86 | two different leaf lists of equal length with equal root hash yield an explicit collision |
| RegistryHistory.CheckpointBinds | src/pafio_registry_v2/publisher.py:464-478 | two roots with one checkpoint agree on every logged leaf's encoding, or a collision is at hand |
| RegistryLog.AttemptEffect | src/pafio_registry_v2/publisher.py:538-558 | what an attempt does to index and log, by the write after which it is cut |
| RegistryLog.LogComplete | docs/registry/Pafio-Registry-V2-Protocol.md:162 | every release has a leaf iff no publish was ever cut between index line and leaf |
| RegistryLog.CrashLosesLeaf | src/pafio_registry_v2/publisher.py:538-558 | any first publish cut after its seventh write leaves a release that no later publish gives a leaf |
| RegistryLog.HalfInitializedIsFinal | src/pafio_registry_v2/publisher.py:326-329 | a root abandoned during initialization never changes again |
| RegistryLog.AttemptHalfInitializes | src/pafio_registry_v2/publisher.py:319-394 | an attempt leaves a root half-initialized iff it found it so, or found it untouched and was cut after one to four writes |
| RegistryLog.HalfInitializedIff | src/pafio_registry_v2/publisher.py:319-394 | a history ends half-initialized iff one of its attempts on the untouched root was cut so |
| RegistryLog.CrashHalfInitializes | src/pafio_registry_v2/publisher.py:326-329 | any first publish cut after one to four writes does, and no later publish changes the root |
| RegistryPublisher.LogRootHash | src/pafio_registry_v2/publisher.py:82-86 | the loop computes the chain hash |
| RegistryPublisher.LeafSequence | src/pafio_registry_v2/publisher.py:289-298 | succeeds iff the leaves are numbered without gaps, and then lists 1 to their count |
| RegistryPublisher.CollectReleases | src/pafio_registry_v2/publisher.py:405-437 | fails iff the file is empty or holds a record of another package; otherwise its releases by version |
| RegistryPublisher.CollectPackageMaps | src/pafio_registry_v2/publisher.py:397-444 | fails iff some index file is unreadable; otherwise maps and digests of all files |
| RegistryPublisher.CollectedAll | src/pafio_registry_v2/publisher.py:397-444 | what was collected lists each namespace once, with exactly its packages, and every index digest |
| RegistryModel.NamespaceSplits | src/pafio_registry_v2/common.py:156-164 | a valid name is its namespace, a slash and a short name, in no other way |
| RegistryModel.NamespaceOfSplit | src/PafioRegistryClient/Client.cpp:61-69 | whatever two segments a name is put together from, the first is its namespace |
| RegistryModel.InNamespace | src/pafio_registry_v2/publisher.py:413-438 | the packages of a namespace are those whose names begin with it and a slash |
| RegistryPublisher.RegistryRoot.Initialize | src/pafio_registry_v2/publisher.py:319-394 | the planned initial writes in order, nothing on an initialized root, refusal of a partial one |
| RegistryPublisher.RegistryRoot.CopyIfMissingOrSame | src/pafio_registry_v2/common.py:338-345 | stores a missing artifact, reuses an equal one, refuses a different one |
| RegistryPublisher.RegistryRoot.AppendReleaseRecord | src/pafio_registry_v2/publisher.py:515-563 | makes exactly the planned writes of a release, in order, with the planned error |
| RegistryPublisher.RegistryRoot.RefreshSignedMetadata | src/pafio_registry_v2/publisher.py:447-512 | makes exactly the planned metadata writes, visiting every namespace once |
| RegistryPublisher.RegistryRoot.Publish | src/pafio_registry_v2/publisher.py:566-632 | a publish makes exactly the writes of its plan, in order, and nothing else |
| RegistryRuns.PublishedTargets | src/pafio_registry_v2/publisher.py:447-462 | a completed publish of ns/short leaves a targets file of ns, one version up, with the release and its digests, listing exactly the indexed packages of ns |
| RegistryClient.LoadEntry | src/PafioRegistryClient/Client.cpp:517-550 | the first line of that package and version, or none if there is none |
| RegistryClient.MetadataBySplit | src/PafioRegistryClient/Client.cpp:181-230 | for ns/short the client reads the targets file of ns: its checks, in their order, and when they pass |
| RegistryClient.BlobCache.MaterializeArtifact | src/PafioRegistryClient/Client.cpp:552-617 | succeeds iff the cached or, without one, the served blob has digest and size of the entry, each failure with its exact error; an occupied cache slot is never overwritten |
| RegistryClient.BlobCache.MaterializeRegistryPackage | src/PafioRegistryClient/Client.cpp:753-805 | the found record with a genuine cached blob; a genuine cached blob always suffices; lookup errors leave the cache alone |
| RegistryClient.ListedIsFound | src/PafioRegistryClient/Client.cpp:491-550 | in every consistent root a listed release leads to its one record with the listed digests and a stored artifact |
| RegistryClient.FoundIffIndexed | src/PafioRegistryClient/Client.cpp:181-230 | with complete targets metadata the client finds exactly what is in the index |
| RegistryClient.RefreshedFullyListed | src/pafio_registry_v2/publisher.py:447-462 | a refresh leaves targets metadata that lists the whole index |
| RegistryClient.IndexHoldsPublished | src/pafio_registry_v2/publisher.py:528-540 | the index holds exactly the releases whose publish got as far as its index line |
| RegistryClient.ClientAgrees | src/PafioRegistryClient/Client.cpp:753-805 | after a completed publish, whatever crashed before, the client finds a release iff it was published |
| RegistryClient.ClientReadsPublished | src/PafioRegistryClient/Client.cpp:517-550 | the record it reads has the published name, version, digest and size, and the stored artifact is the published one or collides with it |
| RegistryClient.FetchPublished | src/PafioRegistryClient/Client.cpp:552-617 | a fresh client gets an archive of the published digest and size, or the root exhibits a collision |
| RegistryClient.RejectedDuplicateChangesNothing | src/pafio_registry_v2/publisher.py:535-537 | a duplicate is refused and changes neither index nor log nor trust metadata |
| RegistryClient.CompletedVerifies | src/pafio_registry_v2/validator.py:277-406 | after a completed publish all digests from the timestamp down, the checkpoint over all leaves, every listed package's records, releases and artifacts verify, and every artifact's size does, or it collides with what was published |
| RegistryClient.HistoryPackagesVerify | src/pafio_registry_v2/validator.py:326-379 | the checks on packages, releases, artifacts and sizes hold after any history, collisions aside |
| RegistryAcceptance.HistoryOrigins | src/pafio_registry_v2/publisher.py:447-512 | in every history the digests in snapshot and timestamp are those of files in the journal, of no later version than what is in force, and of index prefixes |
| RegistryAcceptance.AttemptAccepted | src/pafio_registry_v2/validator.py:277-406 | exactly when the verifier accepts the root after one attempt, by the place of its cut, or two files of the journal share a digest |
| RegistryAcceptance.VerifierAccepts | src/pafio_registry_v2/validator.py:277-406 | the same for whole histories of interrupted publishes |
| RegistryAcceptance.RetriesRepairNothing | src/pafio_registry_v2/publisher.py:535-537 | once the index line is written, retrying the release any number of times leaves the verifier's answer as it is |
| RegistryAcceptance.InterruptedStaysRefused | docs/registry/Pafio-Registry-V2-Protocol.md:183-196 | a publish of a listed package cut between index line and last write leaves a root that is refused however often the release is retried, or files collide |
| RegistryClient.ListedPackagesVerify | src/pafio_registry_v2/validator.py:326-379 | in a consistent root whose targets list indexed packages, every record's name and artifact digest and every listed release's digests verify |
| RegistryClient.SizesVerify | src/pafio_registry_v2/validator.py:326-379 | a record's size is that of the stored artifact, or the artifact collides with the published one |
| RegistryRuns.PublishStep | src/pafio_registry_v2/publisher.py:566-632 | one completed publish keeps index, log, targets and metadata in step with the list of requests, and is refused exactly for a bad name or a known release |
| RegistryRuns.PublishAll | src/pafio_registry_v2/publisher.py:566-632 | over any run into a fresh root: which requests are refused and why; the client then finds exactly the accepted releases with their records, all are logged, and the metadata verifies |
| UstarModel.OctalLength | src/PafioPack/Pack.cpp:308-321 | a number has at most n octal digits iff it is below 8^n |
| TarWriter.WriteOctalField | src/PafioPack/Pack.cpp:315-327 | fails iff the value is at least 8^(length-1), leaving the header alone; otherwise changes exactly its field |
| TarWriter.WriteChecksumField | src/PafioPack/Pack.cpp:329-342 | fails iff the sum is at least 8^6; otherwise writes the left-padded field and nothing else |
| UstarModel.ChecksumFits | src/PafioPack/Pack.cpp:332-335 | the checksum limit can never be exceeded |
| UstarModel.SplitIsComplete | src/PafioPack/Pack.cpp:344-376 | a path splits iff it fits in 100 bytes or some slash leaves parts that fit; the rightmost such slash; joining gives the path back |
| TarWriter.SplitArchivePathForUstar | src/PafioPack/Pack.cpp:344-376 | the backward search computes that split |
| UstarReader.HeaderTable | src/PafioPack/Pack.cpp:380-401 | the header field by field, as the standard tabulates it, spelled out in ASCII |
| UstarReader.HeaderChecksum | src/PafioPack/Pack.cpp:403-408 | the checksum field holds the sum of the header with spaces in that field |
| UstarReader.HeaderReads | src/PafioPack/Pack.cpp:378-410 | a reader accepts every written header, gets size and path, and never takes it for the end marker |
| TarWriter.TarStream.WriteTarEntry | src/PafioPack/Pack.cpp:378-418 | appends exactly the member, or fails for exactly one of three reasons without writing |
| UstarReader.RoundTrip | src/PafioPack/Pack.cpp:420-442 | reading an archive gives back its entries, in order, iff no path contains a NUL |
| UstarReader.ArchiveBinds | src/PafioPack/Pack.cpp:420-442 | different entry lists never share an archive |
| UstarReader.ArchiveAligned | src/PafioPack/Pack.cpp:412-441 | archives are whole numbers of blocks with at least the two closing ones |
| TarWriter.WriteTarArchive | src/PafioPack/Pack.cpp:420-460 | an archive iff every member can be written, then with the round trip; otherwise the error of the first member that cannot |
| Fips180.RoundConstants | src/PafioCore/Sha256.cpp:71-80 | constant t is the 32 bits behind the point of the cube root of the prime with t primes below it |
| Fips180.InitialHash | src/PafioCore/Sha256.cpp:167-176 | the initial words are those of the square roots of the first eight primes |
| Fips180.LengthFieldReads | src/PafioCore/Sha256.cpp:54-58 | the bytes of the length field spell the length |
| Fips180.BigEndianReads | src/PafioCore/Sha256.cpp:120-127 | the four bytes of a word, most significant first |
| Fips180.ZeroBytesLeast | src/PafioCore/Sha256.cpp:39-53 | the padding of section 5.1.1: the least number of zero bytes that leaves room for the length |
| Sha256.SigmasAreFips | src/PafioCore/Sha256.cpp:82-115 | the shift formulations are the rotations of section 4.1.2 |
| Sha256.ChoosesAndVotes | src/PafioCore/Sha256.cpp:87-95 | Ch chooses and Maj votes bit by bit, and both are those of section 4.1.2 |
| Sha256.ExpandedSchedule | src/PafioCore/Sha256.cpp:119-132 | the array holds the message schedule of section 6.2.2 |
| Sha256.Hasher.Transform | src/PafioCore/Sha256.cpp:117-165 | one block changes the state as section 6.2.2 says |
| Sha256.Hasher.Update | src/PafioCore/Sha256.cpp:21-37 | appends to the hashed message, whatever the buffer holds and however long the piece is |
| Sha256.PaddedParts | src/PafioCore/Sha256.cpp:41-59 | the padded message is the whole blocks plus one or two last blocks, by the rest of the length |
| Sha256.Hasher.FinalHex | src/PafioCore/Sha256.cpp:39-68 | the digest of the whole message in hexadecimal, stale buffer bytes and the two-block case included |
| Sha256.HexWordReads | src/PafioCore/Sha256.cpp:61-67 | a word prints as eight lowercase digits that read back as the word |
| Sha256.HexOfSpells | src/PafioCore/Sha256.cpp:61-67 | eight digits for each word, in the order of the words, that read back as it |
| Sha256.HexOfBinds | src/PafioCore/Sha256.cpp:61-67 | different digests print differently |
| Sha256.Sha256File | src/PafioCore/Sha256.cpp:187-211 | for chunks of any sizes, 64 lowercase digits of the digest of their concatenation |
| Sha256.Sha256Text | src/PafioCore/Sha256.cpp:213-218 | the same for a text |
| LockfileReading.CharsRead | src/PafioManifest/Lockfile.cpp:113-118 | reading a quoted string gives the value back |
| LockfileReading.TextReads | src/PafioManifest/Lockfile.cpp:236-285 | reading the canonical text gives the document in canonical order |
| Lockfile.CheckPackage | src/PafioManifest/Lockfile.cpp:187-228 | the ordered checks raise the first failing one, and none exactly for the valid packages |
| Patterns.NamePattern | src/PafioManifest/Lockfile.cpp:20-24 | the valid package names are what the regular expression for them matches |
| Patterns.SemverPattern | src/PafioManifest/Lockfile.cpp:26-30 | the versions are what theirs matches |
| Patterns.Sha256Pattern | src/PafioManifest/Lockfile.cpp:32-36 | the digests are what theirs matches |
| Lockfile.LoadLockfile | src/PafioManifest/Lockfile.cpp:125-234 | loads exactly the well-formed texts of valid documents, and otherwise raises the first error |
| Lockfile.SerializeLockfileCanonical | src/PafioManifest/Lockfile.cpp:236-285 | the loops produce the canonical text; it loads back as the canonical document iff the document is valid and free of control characters |
| Lockfile.RoundTrip | src/PafioManifest/Lockfile.cpp:125-285 | the same equivalence for the text as a function |
| Lockfile.ControlCharacterIsLost | src/PafioManifest/Lockfile.cpp:113-118 | a concrete valid document with a line feed in its git source whose text does not load as it |
| Lockfile.SameNormal | src/PafioManifest/Lockfile.cpp:270-281 | two packages have one canonical form iff they agree up to the order of dependencies |
| LockfileReading.CanonicalInOrder | src/PafioManifest/Lockfile.cpp:244-271 | in the canonical document packages are in the order of ids and dependencies in that of strings |
| Lockfile.SameContentSameText | src/PafioManifest/Lockfile.cpp:244-271 | permuting packages or dependencies does not change the text |
| Lockfile.TextIsExact | src/PafioResolve/ProjectGraphContract.cpp:211 | texts are equal iff documents are equal up to order |
| LockfileInverse.RawTextIsExact | src/PafioResolve/ProjectGraphContract.cpp:211 | any text at all equals a canonical document's text iff it reads as that document |
| Lockfile.StrayFieldIsLost | src/PafioManifest/Lockfile.cpp:259-268 | two different documents with one text, where source fields do not match their kind |
| GeneratedLockfile.GeneratedIsCanonical | src/PafioResolve/Resolver.cpp:419-443 | the generated document has distinct ids, matching source fields, and is already canonical |
| GeneratedLockfile.GeneratedRecords | src/PafioResolve/Resolver.cpp:398-443 | the generated document names its generator and resolver, and its packages are the nodes: id as kind, name, version and pin spell it, name, version, dependencies, and the source fields of the origin |
| GeneratedLockfile.GeneratedIsValid | src/PafioManifest/Lockfile.cpp:150-228 | it keeps the loader's rules iff every node has a version of three numbers, a source that is not empty and, from a registry, a digest of 64 hex digits |
| GeneratedLockfile.WriteAndLoad | src/PafioManifest/Lockfile.cpp:125-285 | written and loaded, it is itself again iff that holds and no control character is in it |
| GeneratedLockfile.GeneratedRoundTrip | src/PafioResolve/Resolver.cpp:426-443 | written and read, it is itself, iff free of control characters |
| GeneratedLockfile.StalenessIsExact | src/PafioResolve/ProjectGraphContract.cpp:211 | the staleness comparison holds iff the stored document has the generated content, in whatever order the seeds came |
| GeneratedLockfile.StaleTextIsExact | src/PafioResolve/ProjectGraphContract.cpp:211 | the raw text of a lockfile passes the staleness comparison iff it reads as exactly the generated document |

## Where code, documents and expectations differ

- The protocol document says that every published release emits one leaf
  (docs/registry/Pafio-Registry-V2-Protocol.md:162). The code appends the index line first, and a publish cut
  between the two leaves a release that a retry refuses as known, so that it never gets a leaf.
  `RegistryLog.LogComplete` gives the exact condition, `RegistryLog.CrashLosesLeaf` a family of instances.
- The same document asks clients to verify the snapshot's file digests
  (docs/registry/Pafio-Registry-V2-Protocol.md:183-196). A publish of a listed package that stops between its
  index line and its last write breaks them, and retrying it cannot help, because the retry is refused before
  the metadata is refreshed (`RegistryAcceptance.InterruptedStaysRefused`). The next publish of another release
  does (`RegistryClient.CompletedVerifies`); `RegistryAcceptance.VerifierAccepts` is the exact condition.
- A root whose initialization was interrupted between config.json and trust/root.json refuses every later
  publish (`RegistryLog.HalfInitializedIsFinal`). `RegistryLog.HalfInitializedIff` says exactly which histories
  end so, `RegistryLog.CrashHalfInitializes` gives a family.
- The resolver memoises by a fingerprint that names a directory, not a manifest. A root manifest with a package
  that is not called `pafio.toml`, next to a `pafio.toml` with another one, shares it:
  `ProjectResolution.OddResolution` is a project in which the run succeeds and silently drops a root package
  whose dependency cannot be resolved. `ResolverTheorems.ClosureIffCoherent` and
  `ResolverProject.CoherentIffTwinHarmless` give the exact condition, `ResolverProject.LoneRootCoherent` the one
  a caller can check.
- The gate counts a refused hot replacement as a violation (src/pafio_cloud_stress/runner.py:223-226). No run
  can get there: the round robin serves every tenant between two requests for it
  (`SchedulerReplacements.NoViolations`).
- The lockfile writer escapes quotes and backslashes only. A value with a control character gives a text that
  TOML refuses: `Lockfile.RoundTrip` names the exact condition, `Lockfile.ControlCharacterIsLost` an instance.

## Left out

- ResolverTheorems.ResolveSingleVersionGraph: for arbitrary worlds the equivalence with the closure is stated under `Coherent`, which `ResolverTheorems.ClosureIffCoherent` shows to be exactly what is needed for the graph to stand for the closure; for projects `ProjectResolution.ResolveProject` replaces it by a check of the input.
- ResolverTheorems.OrderIndependent: rests on the same condition, because the memo table keeps whichever selection came first; for projects `ProjectResolution.RegularIsUnique` needs the check of the input alone.
- ResolverTheorems.NodesAreTheClosure: compares fingerprints under `Coherent`; what the nodes hold is stated by `ResolverTheorems.ClosureIffCoherent` and, for projects, by `ProjectResolution.RegularIsWhole`.
- ResolverTheorems.CompleteSound: holds under the same condition.
- ResolverModel.RegularWorldCoherent: takes as hypothesis that a source fixes its packages; `ResolverProject.FingerprintIdentifies` derives it from the selection code.
- RegistryClient.CompletedVerifies: the verifier's checks without signatures, lengths of metadata files, expiry and `latest_version`.
- RegistryPublisher.CollectReleases: compares every record with the package under which the file is filed, where the code takes the name from the first record; in a consistent root both are the same.
- RegistryPublisher.CollectPackageMaps: the same, and without `latest_version`.
- RegistryPublisher.RegistryRoot.Initialize: refusals of an initialized root because of other keys, another protocol or another registry name are not modelled; they write nothing.
- RegistryPublisher.RegistryRoot.Publish: starts from a scanned archive; refusals by the archive scan and the manifest checks are not modelled.
- RegistryClient.BlobCache.MaterializeRegistryPackage: the trust pin of remote registries, the configuration's contents and the checkout of the archive are not modelled.
- Lockfile.LoadLockfile: accepts the writer's own layout alone, where the code accepts any TOML with the same content.
- GeneratedLockfile.StalenessIsExact: takes the stored text as written by the serializer, and `Coherent`; `GeneratedLockfile.StaleTextIsExact` needs neither.
- ResolverProject.CoherentIffTwinHarmless: sources and pins with the fingerprint's separators are outside it, because they break it (`ResolverProject.SeparatorsCollide`); one release per digest is `RegistryProject.PublishedOneRelease`.
- ResolverProject.LoneRootCoherent: one direction of that equivalence, as the check before the call.
- Sha256.Hasher.FinalHex: consumes the hasher, as the source's state after finishing is not that of any message.
- Scheduler: the random generator is replaced by arbitrary draws; `heapq` is kept as the sequence in pop order; container ids are positions in creation order; event payloads and scenario text are not modelled; averages, throughput and rates are exact instead of in floating point and rounded; the checks of `failure_rate` belong to the draws.
- Resolver: file system, git and registry are functions of their inputs, and what they owe the resolver is named (`LawfulPaths`, `OneReleasePerDigest`, `SeparatorsFree`); failures of git and registry are missing answers; dependency aliases in the output, path normalisation, offline and vendored sources, and error texts are not modelled; paths are compared as normalised strings; equal aliases keep their order in sorting, which `std::sort` does not promise.
- WorkspaceRoots.SelectPackageManifestFromRoot: takes parsed manifests and does not model failures while parsing.
- Registry: an index file is a sequence of records filed under its package; signatures, keys, expiry, wall-clock times and `latest_version` are not modelled; one writer, no concurrent publishes; a copy, an append and a replacement are single steps; leaf numbers beyond twelve digits, whose names no longer sort numerically, are not modelled; yanking is not modelled (a second record for a version is refused).
- Client: HTTP, trust pins, offline caching of metadata and the checkout of archives are not modelled; index lines are parsed records.
- TarWriter.WriteTarArchive: takes contents as bytes and returns the archive; the temporary file and its rename are not modelled.
- Sha256.Sha256File: takes the chunks that were read; I/O errors are not modelled.
- Lockfile: TOML beyond the writer's own format is not modelled, nor are comments, other key orders or other escapes; with equal ids, which the resolver never produces, `std::sort` may order packages either way.
- Process execution, git cache, vendoring, HTTP services, command line, cloud policy tables: plumbing and finite tables that would add only easy members.
