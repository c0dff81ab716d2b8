# QoS multi-objective routing — a Dafny model

The modelled program chooses a route through a network whose nodes have a
processing delay and a reliability and whose links have a bandwidth, a delay
and a reliability. A route is scored by three metrics (total delay,
reliability cost as a sum of `-ln` terms, resource cost as a sum of
`1000 / bandwidth` terms) combined with a weight triple. Three search engines
look for cheap routes that carry a bandwidth demand: a genetic algorithm, an
Ant Colony System and tabular Q-learning.

The model is split into the following modules:

- `Common` (common.dfy): the shared vocabulary.
  - Python exceptions become the `Fault` cases of a `Result`.
  - `float('inf')` becomes `Cost.Inf`.
  - `-np.log` is an injected function `negLn`.
  - Every `random` call becomes a draw from an injected source `draws: nat -> real` with values in `[0, 1)`. Each method takes a cursor into it and returns the advanced cursor.
- `Network` (network.dfy): the graph and the shared evaluator in `network_module.py`.
  - The graph is an immutable value of two maps: vertex id to (processing delay, reliability), and vertex id to its ordered adjacency entries.
  - `GraphStore` is the loader's in-place vertex insertion and per-row edge insertion.
  - `CalculateMetrics` is the accumulating loop of `calculate_metrics`.
- `MetricsCalculator` (metrics.dfy): the per-link and per-path evaluators of `metrics_calculator.py`.
  - They include the weight check that rejects triples not summing to 1.0.
  - The model also shows how their conventions relate to `calculate_metrics`.
- `AntColony` (aco.dfy): `aco_algorithm.py`.
  - The pheromone dict is a class whose map field is updated in place by the local, evaporation and deposit rules.
  - The transition rule, the ant walk and the best-tracking loop of `run_aco` are methods, each proved equal to a function of the draws (`TransitionRule`, `AntWalk`, `AcoRun`).
- `Genetic` (genetic.dfy): `GA_Algorithm.py`.
  - The random walk of `find_random_path`, fitness, crossover, mutation, the stable sort by fitness and the generation loop.
  - Each method that draws is proved equal to a function of the draws (`RandomPath`, `Mutation`, `Child`, `Seed`, `Generation`, `GeneticRun`).
- `QLearning` (qlearn.dfy): `q_learn.py`.
  - The agent is a class holding the 251×251 Q-table as an `array2` and a mutable `epsilon`.
  - The Q update, one episode, training and greedy path extraction are methods on it.
  - `EpisodeWalk` is an episode's trail as a function of the draws and of the table before the episode; `HopUpdate` is the value an episode writes into the cell of one hop.

Each evaluator keeps its own convention as the code has it:

- `calculate_metrics` charges neither endpoint's processing delay or reliability, and uses the sentinel 999 for a non-positive reliability.
- `calculate_path_metrics` charges no endpoint processing delay, but charges the source's and the destination's reliability once each.
- `evaluate_path` sums per-link costs, each charging its origin node, then subtracts only the source's processing delay.

`NetworkAndCalculatorAgree` and `AcoAgreesWithCalculator` state exactly how they differ.

Behaviour of the code that the model keeps:

- The three evaluators above each use their own convention.
- The ant colony never checks bandwidth against the demand: an ant may take any adjacency entry.
- Scoring an ant's candidates can raise, and the exception ends `run_aco`. The candidates are neighbours, so their links exist; the raise comes from weights that do not sum to 1, a current vertex missing from the vertex table, or a zero bandwidth.
- `find_random_path` never holds more than one frontier entry, because each pop pushes at most one successor. It is therefore a random walk that returns `None` at its first dead end.
- Epsilon is multiplied by 0.994 only while it is above 0.01, so it can end slightly below 0.01.
- `calculate_weighted_total_cost`, which the genetic algorithm uses as its fitness, does not validate the weights.

## Model

| member | source | states |
|---|---|---|
| Common.DistinctIffSetSize | GA_Algorithm.py:86 | the duplicate test `len(s) == len(set(s))` holds exactly when no two positions of `s` hold the same node |
| Common.FirstMax | aco_algorithm.py:82 | Python's `max` over a scored list: an index of a maximal score, with every earlier score strictly smaller |
| Network.CombineNonneg | network_module.py:129-132 | non-negative weights applied to non-negative metrics give a non-negative weighted cost |
| Network.FirstEntryTo | network_module.py:29-32 | the scan of an adjacency list stops at an entry leading to the destination, or at the end of the list |
| Network.FirstEntryToSkips | network_module.py:29-32 | every entry the scan passes over leads elsewhere, so the entry found is the first one to the destination |
| Network.GetLinkInfoFirst | network_module.py:27-33 | `get_link_info` finds nothing exactly when no entry of `u` (or no list at all) leads to `v`; otherwise it returns the link of the first entry that does |
| Network.GetNeighbors | network_module.py:55-59 | one neighbour id per adjacency entry, in adjacency order; no entries (so an empty list) for an unknown vertex |
| Network.NeighborIffLink | network_module.py:55-59 | `v` is listed as a neighbour of `u` exactly when `get_link_info(u, v)` finds a link |
| Network.WithEdgeExtends | network_module.py:45-50 | an edge row only appends to the lists it touches and adds no key but `u` and `v` |
| Network.WithEdgeKeepsSymmetric | network_module.py:45-50 | inserting an edge row into symmetric adjacency lists leaves them symmetric: every entry `u -> (v, link)` has a mirror `v -> (u, link)` |
| Network.LookupAfterInsert | network_module.py:45-50 | after inserting a row for a pair not yet linked, `get_link_info` reports the row's link in both directions |
| Network.GraphStore.constructor | network_module.py:69-72 | the loader starts from empty vertex, vertex-id and adjacency tables |
| Network.GraphStore.AddVertex | network_module.py:21-25 | a new id gets its record and an empty id list; an existing id leaves every table unchanged; adjacency is never touched |
| Network.GraphStore.AddEdgeRow | network_module.py:45-50 | creates missing lists, appends `(v, link)` to `u` and `(u, link)` to `v` with identical attributes, keeps symmetry and leaves the vertex tables alone |
| Network.NetFirstStop | network_module.py:103-114 | the first hop that ends the loop: one with no link (`None`) or with zero bandwidth (division raises); every earlier hop is sound |
| Network.CalculateMetrics | network_module.py:94-127 | the loop equals `NetMetrics`: an empty path raises; the first hop without a link returns `None`; otherwise link delay, reliability (999 when not positive) and `1000/bw` over every hop, plus the origin charges of hops whose origin is neither endpoint |
| Network.WeightedTotalCost | network_module.py:129-132 | `+inf` exactly when the metrics are `None`; raises exactly when they raise; otherwise exactly `W_delay·delay + W_reliability·rel + W_resource·res` |
| Network.BrokenHopCostsInfinity | network_module.py:108-110 | a path whose first broken hop has no link costs `+inf` |
| Network.NetMetricsNonnegative | network_module.py:103-121 | on a well-formed graph with `-ln` non-negative on (0, 1], all three totals are non-negative |
| MetricsCalculator.LinkCost | metrics_calculator.py:8-40 | no link raises the missing-link error; an unknown origin raises a key error; otherwise the delay is link delay plus `u`'s processing delay, the reliability cost is `-ln` of the link's plus `-ln` of `u`'s reliability, and the resource cost is `1000 / bandwidth` (a zero bandwidth raises) |
| MetricsCalculator.WeightedLinkCost | metrics_calculator.py:43-59 | weights whose sum does not round to 1.0 are rejected before any lookup; otherwise it succeeds exactly when the link cost does, with the weighted combination of its three metrics |
| MetricsCalculator.CalcFirstFault | metrics_calculator.py:76-97 | the first hop whose processing raises (missing link, unknown interior origin, zero bandwidth); every earlier hop is sound |
| MetricsCalculator.CalculatePathMetrics | metrics_calculator.py:66-111 | the loop equals `PathMetrics`: the first faulty hop's exception, else a missing endpoint's key error, else the hop totals plus both endpoint reliabilities |
| MetricsCalculator.WeightedPathCost | metrics_calculator.py:114-132 | bad weights are rejected before the path is evaluated; otherwise it fails exactly when the path metrics fail, with the same fault, and succeeds with their weighted combination |
| MetricsCalculator.InteriorHopIsLinkCost | metrics_calculator.py:85-97 | a hop after the first charges exactly what `calculate_link_cost` charges for it, and fails with the same fault |
| MetricsCalculator.CalcSumSplits | metrics_calculator.py:76-97 | the loop total is the per-link sums plus the node charges of positions 1 .. n-1 |
| MetricsCalculator.PathMetricsOk | metrics_calculator.py:99-105 | a success means every hop was sound and both endpoints are known, and the endpoint reliabilities are added once each to the loop's total |
| MetricsCalculator.PathMetricsChargesEachNodeOnce | metrics_calculator.py:76-105 | delay is the link delays plus the interior nodes' processing delays; reliability is the links' plus every node's, each once; resource is the links' only |
| MetricsCalculator.PathMetricsNonnegative | metrics_calculator.py:66-111 | on a well-formed graph all three metrics are non-negative, and the resource cost of a path with a hop is positive |
| MetricsCalculator.WeightedPathCostNonnegative | metrics_calculator.py:114-132 | non-negative weights give a non-negative weighted path cost |
| MetricsCalculator.SumsAgree | network_module.py:103-121 | on a duplicate-free path the loop totals of the two modules are equal, hop by hop |
| MetricsCalculator.NetworkAndCalculatorAgree | metrics_calculator.py:66-111 | when `calculate_path_metrics` succeeds on a duplicate-free path, `calculate_metrics` also succeeds with the same delay and resource cost; its reliability cost lacks exactly the two endpoint terms |
| AntColony.AcoFirstFault | aco_algorithm.py:27-32 | the first hop whose link cost raises; every earlier hop is sound |
| AntColony.EvaluatePath | aco_algorithm.py:18-44 | the loop equals `AcoMetrics`: raises exactly when some hop's link cost raises; otherwise per-link sums of the three metrics, minus the source's processing delay for paths of two or more nodes, with the total cost their weighted combination |
| AntColony.AcoSumIsCalcSum | aco_algorithm.py:27-32 | the per-link sums equal the path loop's totals plus the source node's processing delay and reliability cost |
| AntColony.AcoAgreesWithCalculator | aco_algorithm.py:34-37 | when `evaluate_path` succeeds and the destination is known, `calculate_path_metrics` succeeds with the same delay and resource cost, and its reliability cost is larger by the destination's term |
| AntColony.HeuristicCost | aco_algorithm.py:55-58 | propagates the weighted link cost's exception; otherwise the reciprocal of that cost plus 1e-9; a cost of exactly -1e-9, where numpy gives `+inf`, is the model's `DivisionByZero` |
| AntColony.HeuristicPositive | aco_algorithm.py:55-58 | on a well-formed graph with non-negative weights the heuristic is positive |
| AntColony.Score | aco_algorithm.py:74-77 | a candidate's score raises exactly when its heuristic raises, with the same exception |
| AntColony.ScorePositive | aco_algorithm.py:74-77 | on a well-formed graph with non-negative weights, a candidate whose pheromone (or the 1e-6 floor) is positive gets a positive score |
| AntColony.ScoreAll | aco_algorithm.py:73-78 | every unvisited candidate is scored `tau^alpha · eta^beta` in order, with a missing pheromone read as 1e-6 |
| AntColony.ScoreAllFirstFault | aco_algorithm.py:73-78 | a failed scoring carries the exception of the first candidate whose score raises |
| AntColony.RouletteIndex | aco_algorithm.py:87-92 | the first candidate whose running total reaches `r`, or the last candidate |
| AntColony.RouletteIndexIsFirst | aco_algorithm.py:87-92 | every running total the roulette passes is below `r`, and unless it stops at the last candidate, the total where it stops reaches `r` |
| AntColony.Roulette | aco_algorithm.py:85-92 | the roulette loop returns the candidate at that index |
| AntColony.RouletteLandsInSlot | aco_algorithm.py:85-92 | for non-negative scores and `0 < r < total`, the chosen candidate's slot `(prefix sum, prefix sum + its score]` contains `r`, so it has a positive score |
| AntColony.DepositedFrame | aco_algorithm.py:109-117 | the deposit `Deposited` adds only the path's edges as keys and leaves every other entry unchanged |
| AntColony.DepositedReinforces | aco_algorithm.py:109-117 | with a positive reinforcement and `0 < rho <= 1`, every path edge ends with positive pheromone and no entry becomes negative |
| AntColony.PheromoneTable.Init | aco_algorithm.py:47-52 | the table is `InitialTau`: exactly one key `(u, v)` per neighbour `v` of each vertex `u`, each holding `tau0` |
| AntColony.PheromoneTable.LocalUpdate | aco_algorithm.py:95-101 | only key `(u, v)` changes, to `(1-phi)·old + phi·tau0`, with a missing key read as `tau0` (`BlendBetween` puts it between `old` and `tau0`) |
| AntColony.PheromoneTable.Evaporate | aco_algorithm.py:104-106 | the table becomes `Evaporated`: every entry is multiplied by `1 - rho`, no key is added or removed, and for `rho < 1` positive values stay positive |
| AntColony.PheromoneTable.DepositBest | aco_algorithm.py:109-117 | when `best_cost + 1e-9` is zero (numpy gives `+inf` there) the model reports `DivisionByZero` with the table unchanged; otherwise the table becomes `Deposited`: each path edge `e` becomes `(1-rho)·tau(e) + rho/(best_cost + 1e-9)`, with a missing edge read as 0, and nothing else changes |
| AntColony.PheromoneTable.ScoreNeighbors | aco_algorithm.py:73-78 | the scoring loop yields all scores or the first exception |
| AntColony.PheromoneTable.ChooseNext | aco_algorithm.py:61-92 | equals `TransitionRule` draw for draw; a chosen node is an unvisited neighbour of the current node |
| AntColony.TransitionRule | aco_algorithm.py:61-92 | raises exactly when some neighbour is unvisited and scoring one raises, with the first such exception; a choice uses one draw when the first draw is below `q0` and two otherwise; no choice uses no draw |
| AntColony.TransitionRuleChoosesUnvisitedNeighbor | aco_algorithm.py:61-92 | `None` exactly when every neighbour is visited; otherwise an unvisited neighbour; when the first draw is below `q0`, one of maximal score |
| AntColony.PheromoneTable.BuildAntPath | aco_algorithm.py:120-147 | equals `AntWalk` under the ACS rule, for the result, the table and the draw cursor; the walk starts at the source, repeats no node and follows adjacency entries; a returned path is that walk ending at the destination with at most `max_steps` nodes; the pheromone changes only on the edges walked |
| AntColony.AntWalkArrives | aco_algorithm.py:128-147 | under any rule that picks unvisited neighbours, a walk that arrives extends the path it started from into a simple adjacency path of at most `max_steps` nodes ending at the destination |
| AntColony.AcsRuleChoosesNeighbors | aco_algorithm.py:69-92 | the ACS transition rule only ever picks an unvisited neighbour of the current node |
| AntColony.RunAco | aco_algorithm.py:150-233 | the answer is `AcoAnswer` of `AcoRun` (the rounds as a function of the draws), and so is the final draw cursor; a best path is a simple adjacency route from source to destination of at most `max_steps` nodes, with the metrics and cost `evaluate_path` gives |
| AntColony.RunAnts | aco_algorithm.py:184-204 | the ants of one iteration equal `Ants` from the table and cursor they start with; afterwards the iteration's best and the global best are the first cheapest of the round's arrivals and of all arrivals so far |
| AntColony.Cheapest | aco_algorithm.py:196-204 | the index of an arrival of least cost, with every earlier arrival strictly dearer, so ties keep the first |
| AntColony.CheapestAppend | aco_algorithm.py:196-204 | a new arrival becomes the cheapest exactly when the list was empty or it is strictly cheaper than the previous cheapest |
| AntColony.BestSoFarAppend | aco_algorithm.py:201-204 | updating the global best on a strictly smaller cost keeps it the first cheapest of all arrivals |
| AntColony.RoundBestAppend | aco_algorithm.py:196-199 | updating the iteration's best on a strictly smaller cost keeps it the first cheapest of the round's arrivals |
| AntColony.RoundEndFromBest | aco_algorithm.py:206-209 | the end of a round done from the iteration's best is `RoundEnd`: evaporation alone without an arrival, otherwise the deposit along the cheapest arrival; a zero divisor, where numpy gives `+inf`, is the model's `DivisionByZero` |
| AntColony.AntsStep | aco_algorithm.py:184-204 | one ant of `Ants`: an exception ends the round; a failed walk is skipped; an arrival is evaluated, and appended unless evaluation raises |
| AntColony.RoundsStep | aco_algorithm.py:179-209 | one round of `Rounds`: an exception in the ants or at the round's end ends the run; otherwise the next round starts from the updated table |
| AntColony.AntsArrivalsGood | aco_algorithm.py:184-204 | under a rule that picks unvisited neighbours, every arrival a round records is a simple adjacency route from source to destination of at most `max_steps` nodes with `evaluate_path`'s metrics and cost |
| AntColony.RoundsArrivalsGood | aco_algorithm.py:179-209 | the same holds for every arrival of the remaining rounds |
| AntColony.AcoRunArrivalsGood | aco_algorithm.py:150-209 | every arrival of a run of `run_aco` is such a route |
| AntColony.AcoAnswer | aco_algorithm.py:213-233 | the run's exception when it raised; no path exactly when no ant arrived; otherwise an arrival that no other arrival undercuts |
| Genetic.NewRouter | GA_Algorithm.py:8-19 | keeps source, target and demand; the given weights, or a default triple summing to 1 when none are given; 50 individuals, 100 generations, mutation rate 0.2 |
| Genetic.ValidNeighbors | GA_Algorithm.py:37-49 | the successors are exactly the unvisited neighbours whose link carries the demand |
| Genetic.ChooseSuccessor | GA_Algorithm.py:37-55 | picks `valid[Pick(u, len(valid))]` among the valid successors with one draw, or reports a dead end without drawing |
| Genetic.FindRandomPath | GA_Algorithm.py:21-57 | equals `RandomPath` (the walk as a function of the draws), result and cursor; the walk starts at the start node, repeats no node, and every hop carries the demand; a result is that walk ending at the target; `None` means the walk is stuck before the target |
| Genetic.RandomWalkArrives | GA_Algorithm.py:28-57 | a random walk that returns a path returns a simple route to the target, carrying the demand on every hop, that extends the walk it continued |
| Genetic.Fitness | GA_Algorithm.py:59-74 | finite exactly when `calculate_metrics` succeeds, and then its weighted cost; `+inf` when the metrics are `None` or raise |
| Genetic.CommonInterior | GA_Algorithm.py:78 | exactly the nodes interior to both parents |
| Genetic.IndexOf | GA_Algorithm.py:83 | `list.index`: the first position holding the pivot |
| Genetic.Crossover | GA_Algorithm.py:76-86 | duplicate-free parents give a duplicate-free child |
| Genetic.CrossoverOutcomes | GA_Algorithm.py:76-86 | with no common interior node, one parent chosen by the draw; otherwise `parent1` or a duplicate-free splice at a common interior pivot |
| Genetic.SpliceAdmissible | GA_Algorithm.py:84 | the prefix of one demand-carrying path joined at a shared node to the suffix of another carries the demand on every hop |
| Genetic.SpliceCandidate | GA_Algorithm.py:82-86 | a duplicate-free splice of two candidate routes is a candidate route from source to target |
| Genetic.CrossoverKeepsCandidate | GA_Algorithm.py:76-86 | crossover of two candidate routes is a candidate route |
| Genetic.Mutate | GA_Algorithm.py:88-96 | equals `Mutation` (result and cursor); paths shorter than 3 stay; otherwise the path unchanged, or `path[:point] + suffix` with `point` in `[1, len-2]`, the suffix a demand-carrying walk from `path[point]` to the target, and the whole duplicate-free; candidates stay candidates |
| Genetic.InsertByKey | GA_Algorithm.py:112 | insertion keeps every individual (a permutation plus one) |
| Genetic.InsertKeepsSorted | GA_Algorithm.py:112 | inserting into a list sorted by fitness keeps it sorted |
| Genetic.SortByKey | GA_Algorithm.py:112 | `sorted(population, key=fitness)`: a permutation of the population in non-decreasing fitness |
| Genetic.SampleTwo | GA_Algorithm.py:116 | two individuals from two different positions of the pool |
| Genetic.FirstMin | GA_Algorithm.py:124 | `min(..., key=fitness)`: a minimal-fitness individual, strictly better than every earlier one |
| Genetic.InitialPopulation | GA_Algorithm.py:100-105 | equals `Seed` (population, attempts and cursor); at most `population_size` candidate routes from at most `2·population_size` walks |
| Genetic.SeedBounds | GA_Algorithm.py:100-105 | seeding makes at most `2·population_size` attempts and keeps at most `population_size` paths, stops before the last attempt only with a full population, and keeps only candidates |
| Genetic.Offspring | GA_Algorithm.py:115-120 | equals `Child` (child and cursor); a child of two candidate parents is a candidate, whether or not it was mutated |
| Genetic.NextGeneration | GA_Algorithm.py:110-122 | equals `Generation` (population and cursor); raises exactly when the parent pool has fewer than two individuals and the population must be refilled; otherwise the 5 fittest carried over first, then refilled to `population_size`, keeping every member a candidate |
| Genetic.Refill | GA_Algorithm.py:115-120 | a refill that succeeds fills the population up to `population_size`, or leaves a longer one as it is |
| Genetic.Evolve | GA_Algorithm.py:110-122 | the generations keep a non-empty population non-empty |
| Genetic.RunGeneticAlgorithm | GA_Algorithm.py:98-124 | equals `GeneticRun` (answer and cursor); the initial population is `Seed`'s and the final one `Evolve`'s; `None` exactly when the initial population is empty; the sampling error only with fewer than two; otherwise a candidate route of minimal fitness in the final population |
| QLearning.ValidActions | q_learn.py:25-40 | exactly the neighbours whose link carries the demand |
| QLearning.ValidActionIffBandwidth | q_learn.py:25-40 | an action is valid exactly when it is a neighbour whose first link reports a bandwidth at least the demand |
| QLearning.Fresh | q_learn.py:115 | the valid actions not yet visited |
| QLearning.OriginChargesCancel | q_learn.py:48-56 | leaving the start node, removing its processing delay and reliability charges from the weighted link cost leaves the link's own weighted cost |
| QLearning.StepCost | q_learn.py:42-62 | a raising cost gives 99999; from a node other than the start, the weighted link cost; from the start node, the link's own weighted cost with the start node's charges removed |
| QLearning.Reward | q_learn.py:132-137 | 10000 for reaching the end node; otherwise minus the step cost: -99999 for a raising link, minus the weighted cost otherwise |
| QLearning.DecayedBounds | q_learn.py:173-174 | the `n`-fold decay `Decayed` of a positive epsilon never increases and stays positive, and does not fall below `min(epsilon, 0.01·0.994)` |
| QLearning.DecayedSettles | q_learn.py:173-174 | once at or below 0.01, epsilon no longer changes |
| QLearning.TrailAdmissible | q_learn.py:76-89 | a walk built from fresh valid actions starts at the start node, repeats no node and carries the demand on every hop |
| QLearning.QLearningAgent.constructor | q_learn.py:9-23 | a fresh all-zero 251×251 table and epsilon 1 |
| QLearning.QLearningAgent.Greedy | q_learn.py:83-84 | an index into the candidate actions |
| QLearning.QLearningAgent.GreedyIsFirstMax | q_learn.py:83-84 | the chosen action has a maximal Q value among the candidates, and every earlier candidate has a strictly smaller one |
| QLearning.QLearningAgent.NextMax | q_learn.py:142-160 | 0 at the destination; otherwise the largest Q value over the action's valid successors not yet visited; −10000 when there are none |
| QLearning.QLearningAgent.GetBestPath | q_learn.py:64-98 | equals `GreedyWalk`; starts at the start node, repeats no node, each hop a fresh valid action of maximal Q value, at most 101 nodes; it stops at the end node, at a dead end (returning the partial path) or after 100 moves |
| QLearning.QLearningAgent.Learn | q_learn.py:163-166 | only `Q[state, action]` changes, to `(1-0.7)·old + 0.7·(reward + 0.9·next_max)`, with a reward of 10000 at the end node and minus the step cost elsewhere |
| QLearning.NoEdgeLeaves | q_learn.py:163-170 | a node that no earlier move left (one off the trail, or its tip) is the origin of none of the trail's hops, so none of its cells has been written yet |
| QLearning.QLearningAgent.GreedyKeepsRow | q_learn.py:127-128 | the greedy choice from `s` reads only row `s`: with that row unchanged it picks the same action |
| QLearning.QLearningAgent.NextMaxKeepsRow | q_learn.py:142-160 | next_max from an action reads only that action's row: with the row unchanged it is the same |
| QLearning.QLearningAgent.OldWalkStep | q_learn.py:111-128 | one move of `EpisodeWalk`: below epsilon, the action a second draw picks uniformly (two draws used); otherwise the first unvisited valid action of largest Q value (one draw used) |
| QLearning.QLearningAgent.Episode | q_learn.py:104-171 | the trail and the returned cursor are exactly `EpisodeWalk`'s on the table before the episode: each move explores (a uniform pick) when its draw is below epsilon and otherwise takes the greedy action; at most 100 moves from the start node, never revisiting a node, stopping at the end node, a dead end or the step cap; the cell of each hop holds `HopUpdate`, its old value blended by 0.7 towards the hop's reward plus 0.9 times next_max, both read in the table before the episode; no other cell changes |
| QLearning.QLearningAgent.Decay | q_learn.py:173-174 | epsilon becomes `DecayOnce` of its old value (times 0.994 only while above 0.01), never grows and stays in (0, 1] |
| QLearning.QLearningAgent.Train | q_learn.py:100-178 | epsilon after `n` episodes is the `n`-fold decay; each episode's trail starts at the start node, repeats no node, moves along valid actions and stops for one of the three reasons; no cell outside the hops of the episodes' trails changes |
| QLearning.MovesAppend | q_learn.py:104-171 | one more episode adds exactly the hops of its trail to the moves made |
| QLearning.MovesAreTrailHops | q_learn.py:100-178 | a cell is among the moves of a sequence of episodes exactly when it is a hop of one of their trails |

## Left out

- `gui_app.py` is not part of this model: the widgets, the drawing, the background thread and the normalisation of the weights entered in the UI.
- The CSV reading in `add_edges` and `GenerateGraph.generate`, and the messages printed when a file is missing. The model keeps the per-row insertion and the vertex insertion they perform.
- The class-level tables of `Graph` are one explicit graph value. The code reads some attributes through the instance passed in and others through the global tables. The model assumes both are the same graph, as they are after loading.
- `print` output and wall-clock timing. `train` returns its elapsed seconds; the model's `Train` returns only the draw cursor.
- Floating-point arithmetic. Costs are reals, so there is no rounding, overflow or NaN. `-np.log` is an injected function of which only non-negativity on (0, 1] is ever assumed. `round(sum, 5) == 1.0` is modelled as `0.999995 < sum < 1.000005`; the two boundary values are not modelled.
- The probability distributions. Each `random` call is an injected draw in `[0, 1)`, and every property holds for every sequence of draws. Nothing is claimed about how often a branch is taken, or about convergence or optimality of the three engines.
- The parsing of `run_aco`'s parameter dict (`int(...)`, `float(...)`, defaults for missing keys) and the two text fields of its result dict. The parameters are a record, and the result is either "no path" or the best path with its metrics and cost.
- AntColony.HeuristicCost: at a weighted cost of exactly -1e-9 the model returns `DivisionByZero`. The cost is a numpy float64, so the source's `1.0 / (c + 1e-9)` gives `+inf` and the ant goes on; `real` has no infinity, and the scores, the roulette and the pheromone table would all need it.
- AntColony.PheromoneTable.DepositBest: when `best_cost + 1e-9` is zero the model returns `DivisionByZero` and leaves the table unchanged. The source's float64 division gives `+inf` and deposits it (a one-node path costs 0.0, so it never divides by zero); `real` has no infinity.
- AntColony.RoundEndFromBest: inherits `RoundEnd`'s convention, which ends the run with `DivisionByZero` where the source deposits `+inf` and goes on, for the same reason.
- AntColony.Score: the exponents `alpha` and `beta` are natural numbers (defaults 1 and 2), because real powers are not available on `real`.
- The `try/except` of `_safe_neighbors`: neighbour lookup is total in the model, so nothing can raise there.
- Q-table indexing assumes every node id lies in `0..250`. numpy's wrap-around for negative ids and its out-of-range error are not modelled.
- The default of 500 episodes: `Train` takes the episode count as a parameter.
- QLearning.QLearningAgent.Train: states the decayed epsilon, the shape of each episode's trail and which cells may change, not each episode's draws or learnt values; `Episode` states those for one episode.
