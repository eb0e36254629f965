# Truss editor scene model in Dafny

This project models the core of a browser-based truss design editor. It is a
JavaScript application, and two source files hold its logic:

- `src/assets/utils.js`:
  - the **member graph**, an undirected adjacency list over joint ids that is
    mutated in place;
  - the **reversible action records**, immutable values whose constructors
    reject `null` parameters and whose `reverse()` builds the undoing action.
- `src/assets/qConstructor.js`:
  - the **query constructor**, which collects joints (upserted by id),
    members (sorted id pairs between existing joints) and forces (at most one
    per joint) for the external truss solver;
  - the **Warren truss generator**, which fills a query constructor from a
    bridge's height, member length, length, width and loads.

The project has five modules:

- `js_values.dfy` (`JsValues`) holds the JavaScript primitives the code relies
  on:
  - strings as UTF-16 code-unit sequences;
  - `String.fromCharCode`, `indexOf` and `splice`;
  - the default string order behind `[a, b].sort()`.
- `member_graph.dfy` (`MemberGraphs`) has two halves:
  - each graph operation as a function on a graph value, with lemmas for
    symmetry, set-like lists, key bookkeeping and exact edge listing;
  - the mutable `MemberGraph` class, whose methods are proved to move its
    state exactly as those functions say.
- `actions.dfy` (`Actions`) models the action records as a datatype, with
  their checking constructors, a total `Reverse`, and its involution.
- `query_constructor.dfy` (`QueryConstructors`) holds:
  - the query as a value, with `addJoint`, `addMember` and `addForce` as
    functions and their invariants;
  - the mutable `QueryConstructor` class, tied to those functions.
- `warren_truss.dfy` (`WarrenTruss`) holds:
  - the generator as a class whose three loops drive a `QueryConstructor`;
  - `Generated`, the whole outcome of the generator's constructor as a
    function;
  - closed forms for the generated joints, members and forces.

Notes on how values are modelled:

- Coordinates and loads are `real`.
- Joint ids are code-unit sequences, so `String.fromCharCode(65 + i)` wraps
  modulo 2^16 as in JavaScript.
- A JavaScript parameter is `Undefined`, `Null` or `Given(v)`. This keeps
  default parameters, which apply only to `undefined`, apart from the
  `== null` checks, which reject both.

The joint type codes follow the code (`qConstructor.js:90`):

- The generator gives code 1 to the first and the last joint and 0 to every
  other joint.
- For a bridge of length 10 with members of length 2 and a non-zero height
  the code yields eleven joints, nineteen members and four loads;
  `WarrenTruss.TenByTwo` states this. With height 0 every joint lies at
  y = 0, so all nine interior joints are loaded.

## Model

| member | source | states |
|---|---|---|
| JsValues.FromCharCode | src/assets/qConstructor.js:89 | one code unit, equal to the argument when that is below 2^16 |
| JsValues.IndexOf | src/assets/qConstructor.js:17-19 | the first position holding the value, or -1 exactly when it is absent |
| JsValues.RemoveFirst | src/assets/utils.js:100-106 | definition: the list without its first occurrence of the value, unchanged when it is absent; `RemoveFirstFacts`, `RemoveFirstAbsent` and `SpliceIsRemoveFirst` state its properties |
| JsValues.RemoveFirstAbsent | src/assets/utils.js:100-106 | removing a value a list does not hold leaves the list unchanged |
| JsValues.SpliceIsRemoveFirst | src/assets/utils.js:76-79 | `splice(indexOf(x), 1)` removes exactly the first occurrence of `x` |
| JsValues.RemoveFirstFacts | src/assets/utils.js:100-106 | removal shortens the list by one exactly when the value was there; it keeps every other element and adds none; a list without repeats stays without repeats and loses the value |
| JsValues.RemoveFirstAppended | src/assets/utils.js:84-106 | removing a value just pushed onto a list that lacked it restores the list |
| JsValues.Below | src/assets/qConstructor.js:38 | string `<` as `sort()` compares: code units from the left, a proper prefix first; a string is never below itself |
| JsValues.BelowTotal | src/assets/qConstructor.js:38 | the code-unit string order is irreflexive, asymmetric and total on distinct strings |
| JsValues.SortedPair | src/assets/qConstructor.js:38 | `[a, b].sort()` holds the same two ids with the lower one first |
| JsValues.SortedPairSymmetric | src/assets/qConstructor.js:38 | the sorted pair does not depend on the order the ids were given in |
| MemberGraphs.WithJoint | src/assets/utils.js:62-68 | `addJoint` registers the id and keeps every existing list |
| MemberGraphs.WithAdjacent | src/assets/utils.js:84-89 | `addAdjacent(a, b)` leaves the keys and other lists alone; `a`'s list afterwards holds its old elements plus `b`; a set-like list stays set-like |
| MemberGraphs.WithoutAdjacent | src/assets/utils.js:100-106 | `removeAdjacent(a, b)` leaves the keys and other lists alone; a set-like list of `a` loses exactly `b` |
| MemberGraphs.WithMember | src/assets/utils.js:91-98 | `addMember(a, b)` registers both joints and links each to the other; other lists are unchanged |
| MemberGraphs.WithoutMember | src/assets/utils.js:108-115 | `removeMember(a, b)` registers both joints; other lists are unchanged |
| MemberGraphs.WithoutJoint | src/assets/utils.js:70-82 | `removeJoint(id)` unregisters `id`; every other list is the old one without its first `id` |
| MemberGraphs.AddJointKeepsInvariants | src/assets/utils.js:62-68 | `addJoint` keeps keys in step with the map, lists set-like, and adjacency symmetric |
| MemberGraphs.AdjacentOpsKeepSetLike | src/assets/utils.js:84-106 | `addAdjacent` and `removeAdjacent` keep keys in step and lists set-like |
| MemberGraphs.RelinkedIsSymmetric | src/assets/utils.js:91-115 | gaining or losing the link between two joints in both directions keeps a symmetric graph symmetric |
| MemberGraphs.WithoutJointWellKeyed | src/assets/utils.js:70-82 | after `removeJoint` the ordered keys are still exactly the map's keys, once each |
| MemberGraphs.WithoutJointSteps | src/assets/utils.js:70-82 | deleting the key and then stripping every remaining list gives `WithoutJoint` |
| MemberGraphs.DeletedKeyWellKeyed | src/assets/utils.js:72-74 | after `delete graph[id]` the remaining keys are without repeats and match the map |
| MemberGraphs.AddMemberKeepsUndirected | src/assets/utils.js:91-98 | `addMember` keeps the graph undirected: well keyed, set-like and symmetric |
| MemberGraphs.LinkedLists | src/assets/utils.js:95-97 | the two `addAdjacent` calls add exactly the adjacencies a→b and b→a |
| MemberGraphs.UnlinkedLists | src/assets/utils.js:112-114 | on set-like lists, the two `removeAdjacent` calls remove exactly a→b and b→a |
| MemberGraphs.RemoveMemberKeepsUndirected | src/assets/utils.js:108-115 | `removeMember` keeps the graph undirected and leaves the two joints unlinked |
| MemberGraphs.StrippedLists | src/assets/utils.js:75-81 | each remaining list stays set-like and loses exactly `id` |
| MemberGraphs.StrippedSymmetric | src/assets/utils.js:70-82 | `removeJoint` keeps a symmetric, set-like graph symmetric |
| MemberGraphs.RemoveJointKeepsUndirected | src/assets/utils.js:70-82 | after `removeJoint(id)`, `id` is neither a key nor in any list; nothing else leaves any list; the graph stays undirected |
| MemberGraphs.PairsFromSnoc | src/assets/utils.js:120-125 | visiting one more adjacent adds its pair exactly when it was not reviewed |
| MemberGraphs.PairsFrom | src/assets/utils.js:120-126 | definition of the inner loop: `[src, adjacent]` for each adjacent not yet reviewed, in list order; `PairsFromMembers` and `PairsFromDistinct` state its properties |
| MemberGraphs.PairsFromMembers | src/assets/utils.js:120-125 | the inner loop collects `[src, y]` exactly for the adjacents `y` not reviewed yet |
| MemberGraphs.PairsFromDistinct | src/assets/utils.js:120-125 | from a set-like list the inner loop collects no member twice |
| MemberGraphs.IndexOfDistinct | src/assets/utils.js:122 | in a list without repeats, `indexOf` of the element at `k` is `k` |
| MemberGraphs.DistinctMembersAppend | src/assets/utils.js:117-131 | two pair lists without a common member, each without repeats, concatenate without repeats |
| MemberGraphs.PairsUpTo | src/assets/utils.js:117-131 | definition of the outer loop: the pairs collected after reviewing the first `n` keys; `PairsUpToMembers` and `PairsUpToDistinct` state its properties |
| MemberGraphs.MemberPairs | src/assets/utils.js:117-131 | definition: what `getAllMembers` returns, the pairs after every key is reviewed; `MemberPairsExact` characterises it |
| MemberGraphs.PairsUpToDistinct | src/assets/utils.js:117-131 | after any number of reviewed joints no undirected member has been collected twice |
| MemberGraphs.PairsUpToMembers | src/assets/utils.js:117-131 | after `n` joints, a pair is collected exactly when its source is among them, its target is adjacent, and the target was not reviewed before the source |
| MemberGraphs.MemberPairsExact | src/assets/utils.js:117-131 | on an undirected graph `getAllMembers` lists only edges, and every edge exactly once in one orientation |
| MemberGraphs.AddJointIdempotent | src/assets/utils.js:62-68 | a present joint is left as is; an absent one gets an empty list at the end of the key order; applying it twice equals applying it once |
| MemberGraphs.AddAdjacentOnce | src/assets/utils.js:84-89 | after `addAdjacent(a, b)` on a set-like list, `b` occurs in it exactly once |
| MemberGraphs.OccursOnce | src/assets/utils.js:84-89 | in a list without repeats an element occurs once |
| MemberGraphs.RemoveMemberUndoesAddMember | src/assets/utils.js:91-115 | on joints not yet linked, `removeMember` after `addMember` leaves only the two registrations |
| MemberGraphs.UnlinkUndoesSelfLink | src/assets/utils.js:84-106 | for a self-member, the two removals undo the two pushes |
| MemberGraphs.UnlinkUndoesLink | src/assets/utils.js:84-106 | for two distinct unlinked joints, the two removals undo the two pushes |
| MemberGraphs.RestoreTwo | src/assets/utils.js:100-106 | writing two entries back to their old values restores the map |
| MemberGraphs.AddThenRemoveOnFreshGraph | src/assets/utils.js:91-115 | on a fresh graph, `addMember` then `removeMember` leaves both joints registered with empty lists |
| MemberGraphs.FreshJoints | src/assets/utils.js:62-68 | registering `a` then `b` on an empty graph gives `a`, `b` with empty lists, in that order |
| MemberGraphs.StrippedStep | src/assets/utils.js:75-81 | one turn of the `removeJoint` loop strips exactly the next key's list |
| MemberGraphs.StripAll | src/assets/utils.js:75-81 | the loop leaves the same keys, each list without its first `id` |
| MemberGraphs.MemberGraph.constructor | src/assets/utils.js:46-48 | a new graph is empty (and so trivially well keyed and set-like) |
| MemberGraphs.MemberGraph.Joints | src/assets/utils.js:50-52 | the registered ids, each once |
| MemberGraphs.MemberGraph.HasJoint | src/assets/utils.js:54-56 | true exactly when the id is registered |
| MemberGraphs.MemberGraph.HasAdjacent | src/assets/utils.js:58-60 | true exactly when `b` is in `a`'s list; `a` must be registered |
| MemberGraphs.MemberGraph.AddJoint | src/assets/utils.js:62-68 | the new state is `WithJoint` of the old one; the keys stay in step with the map and every list stays set-like |
| MemberGraphs.MemberGraph.RemoveJoint | src/assets/utils.js:70-82 | the new state is `WithoutJoint` of the old one; the keys stay in step with the map and every list stays set-like |
| MemberGraphs.MemberGraph.AddAdjacent | src/assets/utils.js:84-89 | the new state is `WithAdjacent` of the old one; the keys stay in step with the map and every list stays set-like |
| MemberGraphs.MemberGraph.AddMember | src/assets/utils.js:91-98 | the new state is `WithMember` of the old one; the keys stay in step with the map and every list stays set-like |
| MemberGraphs.MemberGraph.RemoveAdjacent | src/assets/utils.js:100-106 | the new state is `WithoutAdjacent` of the old one; the keys stay in step with the map and every list stays set-like |
| MemberGraphs.MemberGraph.RemoveMember | src/assets/utils.js:108-115 | the new state is `WithoutMember` of the old one; the keys stay in step with the map and every list stays set-like |
| MemberGraphs.MemberGraph.GetAllMembers | src/assets/utils.js:117-131 | returns `MemberPairs` of the current graph, which `MemberPairsExact` characterises |
| Actions.WithDefault | src/assets/utils.js:155 | a default replaces only a left-out parameter; `null` stays `null` |
| Actions.NewAddJoint | src/assets/utils.js:155-162 | succeeds exactly when both coordinates and the id are set and the type is not `null`; stores them, with type FLOATING by default; otherwise throws naming `AddJoint` |
| Actions.NewRemoveJoint | src/assets/utils.js:179-186 | as `NewAddJoint`, for `RemoveJoint` |
| Actions.NewMoveJoint | src/assets/utils.js:202-209 | succeeds exactly when the displacement and the id are set, storing them; otherwise throws naming `MoveJoint` |
| Actions.NewSetJointType | src/assets/utils.js:220-228 | succeeds exactly when id, old and new type are set, storing them; otherwise throws naming `SetJointType` |
| Actions.NewSetJointId | src/assets/utils.js:238-245 | succeeds exactly when both ids are set, storing them; otherwise throws naming `SetJointId` |
| Actions.NewAddMember | src/assets/utils.js:255-263 | succeeds exactly when both joints are set and the area is not `null`; stores them, with area 0 by default; otherwise throws naming `AddMember` |
| Actions.NewRemoveMember | src/assets/utils.js:274-282 | as `NewAddMember`, for `RemoveMember` |
| Actions.NewSetMemberLinearArea | src/assets/utils.js:294-303 | succeeds exactly when both joints and both areas are set, storing them; otherwise throws naming `SetMemberLinearArea` |
| Actions.NewSelectJoint | src/assets/utils.js:327-334 | succeeds exactly when the id list is set, storing it; otherwise throws naming `SelectJoint` |
| Actions.NewDeselectJoint | src/assets/utils.js:345-352 | succeeds exactly when the id list is set, storing it; otherwise throws naming `DeselectJoint` |
| Actions.Message | src/assets/utils.js:366-372 | definition: the error message is the refusing class's name followed by " must have all parameters set"; `MessageIdentifiesAction` states its property |
| Actions.MessageIdentifiesAction | src/assets/utils.js:366-372 | two errors carry the same message exactly when they name the same action class |
| Actions.Reverse | src/assets/utils.js:136-355 | the `reverse()` methods (165-167, 189-191, 211-213, 230-232, 265-267, 284-286, 305-307, 335-337, 353-355) each build the undoing action through its class's constructor; every action has a reverse except `SetJointId` (235-246), which inherits the empty base `reverse()` |
| Actions.ReverseNeverThrows | src/assets/utils.js:136-141 | building a reverse never throws `MalformedActionError` |
| Actions.ReverseFields | src/assets/utils.js:146-356 | the following hold field by field: add and remove swap and keep every field; select and deselect swap and keep every field; a move negates its displacement; the two setters swap old and new |
| Actions.ReverseInvolution | src/assets/utils.js:146-356 | reversing a reverse gives back the original action |
| QueryConstructors.UpsertPlacement | src/assets/qConstructor.js:25-32 | an existing id's entry is replaced at its own index and nothing else moves; a new id's entry is appended |
| QueryConstructors.Ids | src/assets/qConstructor.js:13-15 | definition of `jointIds`: the joints' ids in order; used by every membership test |
| QueryConstructors.ForceIds | src/assets/qConstructor.js:43 | definition of `forces.map(force => force[0])`: the loaded joints' ids in order; `WithForceSpec` states what `addForce` keeps of it |
| QueryConstructors.Upsert | src/assets/qConstructor.js:25-32 | definition of `addJoint`'s list update: replace at `jointIndex(id)` or append; `UpsertPlacement` and `UpsertKeepsIdsUnique` state its properties |
| QueryConstructors.WithJoint | src/assets/qConstructor.js:25-32 | the new entry is among the joints; members, forces and separation are unchanged |
| QueryConstructors.WithMember | src/assets/qConstructor.js:34-40 | joints, forces and separation are unchanged |
| QueryConstructors.WithForce | src/assets/qConstructor.js:42-46 | joints, members and separation are unchanged |
| QueryConstructors.UpsertKeepsIdsUnique | src/assets/qConstructor.js:25-32 | `addJoint` keeps joint ids unique and registers exactly the given id in addition |
| QueryConstructors.WithJointKeepsWellFormed | src/assets/qConstructor.js:25-32 | `addJoint` keeps the query well formed |
| QueryConstructors.WithMemberSpec | src/assets/qConstructor.js:34-40 | `addMember` appends exactly when both ids are joints, keeps earlier members, appends the sorted pair (the same for both argument orders), leaves the query unchanged when an id is missing, touches nothing but the members, and keeps the query well formed |
| QueryConstructors.WithForceSpec | src/assets/qConstructor.js:42-46 | `addForce` keeps at most one force per joint; the joint has a force afterwards exactly when it exists; a new force `[id, mag, dir]` is appended after the earlier ones; a missing joint or one that already has a force leaves the query unchanged; nothing but the forces changes |
| QueryConstructors.QueryConstructor.constructor | src/assets/qConstructor.js:2-7 | three empty lists and separation `[1, 1]` |
| QueryConstructors.QueryConstructor.SetSeparation | src/assets/qConstructor.js:9-11 | only the separation changes |
| QueryConstructors.QueryConstructor.JointIndex | src/assets/qConstructor.js:17-19 | the first index of a joint with the id, or -1 exactly when there is none |
| QueryConstructors.QueryConstructor.HasJoint | src/assets/qConstructor.js:21-23 | true exactly when some joint has the id |
| QueryConstructors.QueryConstructor.AddJoint | src/assets/qConstructor.js:25-32 | the new state is `WithJoint` of the old one and stays well formed |
| QueryConstructors.QueryConstructor.AddMember | src/assets/qConstructor.js:34-40 | the new state is `WithMember` of the old one and stays well formed |
| QueryConstructors.QueryConstructor.AddForce | src/assets/qConstructor.js:42-46 | the new state is `WithForce` of the old one and stays well formed |
| WarrenTruss.SectionCount | src/assets/qConstructor.js:69-77 | defined exactly when `bridgeLength / memberLength` is an integer, and then sections times member length is the bridge length |
| WarrenTruss.IsInteger | src/assets/qConstructor.js:75 | definition of `Number.isInteger` on an exact real: the value equals its floor |
| WarrenTruss.EffectiveLoad | src/assets/qConstructor.js:61-66 | the contract: the joint load alone when the uniform load is zero; the definition otherwise adds the uniform load over the tributary area `memberLength * bridgeWidth / 2`, and the generator's constructor is proved to store exactly this value |
| WarrenTruss.LayoutOf | src/assets/qConstructor.js:67-71 | definition: the fields the loops read, with `numNodes = 2 * numSections + 1` and `xStart = -bridgeLength / 2`; `LayoutJoints` states the joints they produce |
| WarrenTruss.IdOf | src/assets/qConstructor.js:89 | definition: joint `i`'s id `String.fromCharCode(65 + i)`, as `addJoints` and `addMembers` (98-100) compute it; `EntryIds` states the ids are `'A' + i` and distinct below the wrap |
| WarrenTruss.JointAt | src/assets/qConstructor.js:86-91 | joint `i` has type code 1 exactly at the two ends, and lies on the bottom chord (y = 0) exactly for even `i` or a flat truss |
| WarrenTruss.MemberRound | src/assets/qConstructor.js:97-107 | one round of `addMembers` changes only the members |
| WarrenTruss.MemberRounds | src/assets/qConstructor.js:96-107 | definition of the `addMembers` loop: the first `k` rounds in order; `MemberRoundsAreLinks`, `MemberRoundsOnlyMembers` and `MemberRoundsKeepWellFormed` state its properties |
| WarrenTruss.MemberRoundCount | src/assets/qConstructor.js:97 | definition of the loop bound `i < numNodes - 1`: `numNodes - 1` rounds, none when that is negative |
| WarrenTruss.Interior | src/assets/qConstructor.js:111 | `slice(1, -1)`: two fewer joints (none for two or fewer), joint `k` of the result being joint `k + 1` |
| WarrenTruss.ForcesOver | src/assets/qConstructor.js:110-116 | definition of `addForces`' loop: `addForce(id, load, -90)` for each joint at y = 0, in order; `ForcesOverOnlyForces`, `ForcesOverLoaded` and `LoadedMembers` state its properties |
| WarrenTruss.Generated | src/assets/qConstructor.js:59-82 | the constructor throws exactly when the sections are not whole, always with the not-an-integer message; otherwise it leaves `Built(p, n)` for `n` the section count, which `GeneratedWellFormed`, `BuiltJoints`, `BuiltMembers` and `BuiltForces` describe |
| WarrenTruss.Placed | src/assets/qConstructor.js:73-79 | definition: a fresh query after `setSeperation([memberLength / 2, height])` and `addJoints`; `PlacedJoints` states its joints |
| WarrenTruss.Wired | src/assets/qConstructor.js:73-80 | definition: the query after `addMembers` as well; `WiredIsLinks` states it |
| WarrenTruss.Built | src/assets/qConstructor.js:73-81 | definition: the query after `addForces` as well, the whole result for `n` sections; `BuiltJoints`, `BuiltMembers` and `BuiltForces` state it |
| WarrenTruss.Entries | src/assets/qConstructor.js:86-92 | one entry per round of `addJoints`, none for a negative count |
| WarrenTruss.UpsertAll | src/assets/qConstructor.js:86-92 | definition of the `addJoints` loop: each entry upserted in turn; `UpsertAllSnoc`, `UpsertAllKeepsIdsUnique` and `UpsertAllDistinct` state its properties |
| WarrenTruss.UpsertAllSnoc | src/assets/qConstructor.js:86-92 | one more round of `addJoints` upserts the next entry |
| WarrenTruss.WarrenTrussConstructor.constructor | src/assets/qConstructor.js:59-82 | stores the lumped joint load and the layout, and leaves the query `Generated` describes |
| WarrenTruss.WarrenTrussConstructor.AddJoints | src/assets/qConstructor.js:84-93 | the joints afterwards are the old ones with every layout entry upserted in order |
| WarrenTruss.WarrenTrussConstructor.AddMembers | src/assets/qConstructor.js:95-108 | the query afterwards is the old one after all `numNodes - 1` rounds of `MemberRound` |
| WarrenTruss.WarrenTrussConstructor.AddForces | src/assets/qConstructor.js:110-116 | the query afterwards is the old one after `ForcesOver` the interior joints with the lumped load |
| WarrenTruss.NewWarrenTruss | src/assets/qConstructor.js:59-82 | throws the not-an-integer error exactly when the sections are not whole; otherwise a fresh, well-formed builder holding the generated query |
| WarrenTruss.UpsertAllKeepsIdsUnique | src/assets/qConstructor.js:84-93 | `addJoints` keeps joint ids unique |
| WarrenTruss.MemberRoundsOnlyMembers | src/assets/qConstructor.js:95-108 | `addMembers` changes only the members |
| WarrenTruss.ForcesOverOnlyForces | src/assets/qConstructor.js:110-116 | `addForces` changes only the forces |
| WarrenTruss.MemberRoundsKeepWellFormed | src/assets/qConstructor.js:95-108 | `addMembers` keeps the query well formed |
| WarrenTruss.ForcesOverKeepsWellFormed | src/assets/qConstructor.js:110-116 | `addForces` keeps the query well formed |
| WarrenTruss.GeneratedWellFormed | src/assets/qConstructor.js:58-117 | the generator succeeds exactly when the sections are whole; its query is then always well formed, even if ids wrap |
| WarrenTruss.UpsertAllDistinct | src/assets/qConstructor.js:84-93 | entries with distinct ids are all appended, in order |
| WarrenTruss.EntryIds | src/assets/qConstructor.js:85-89 | the layout's ids are `'A' + i`, pairwise distinct; `'A' + j` is one of them exactly when `j < numNodes` |
| WarrenTruss.PlacedJoints | src/assets/qConstructor.js:84-93 | after `addJoints` the joints are exactly the layout's entries |
| WarrenTruss.LinkIsOrdered | src/assets/qConstructor.js:98-105 | a member from a lower to a higher joint index is stored in that order |
| WarrenTruss.MemberRoundIsRoundLinks | src/assets/qConstructor.js:98-106 | round `i` links joint `i` to `i + 1` and, if it exists, `i + 2` |
| WarrenTruss.MemberRoundsAreLinks | src/assets/qConstructor.js:95-108 | the rounds of `addMembers` append exactly the Warren links and keep the joints |
| WarrenTruss.LinksCount | src/assets/qConstructor.js:97-107 | two links per round, except one in the last round |
| WarrenTruss.LinksMembers | src/assets/qConstructor.js:97-107 | the links join each `a` to `a + 1` and `a + 2` where those joints exist |
| WarrenTruss.LinksDistinct | src/assets/qConstructor.js:97-107 | no link is generated twice |
| WarrenTruss.WiredIsLinks | src/assets/qConstructor.js:79-80 | after `addJoints` and `addMembers` the query holds the layout's joints, the Warren links, no forces, and the separation `[memberLength / 2, height]` |
| WarrenTruss.LayoutJoints | src/assets/qConstructor.js:84-93 | `2n + 1` joints; joint `i` has id `'A' + i` and x `-bridgeLength / 2 + i * memberLength / 2`; y is 0 for even `i` and `height` for odd `i`; type code is 1 exactly at both ends; the ids are distinct |
| WarrenTruss.BuiltJoints | src/assets/qConstructor.js:73-81 | the generated query holds exactly the layout's joints and separation `[memberLength / 2, height]` |
| WarrenTruss.WarrenLinks | src/assets/qConstructor.js:95-108 | `2 * numNodes - 3` members (none for one joint), none twice; a member is present exactly when it is `{a, b}` with `a < b <= a + 2`, stored low id first |
| WarrenTruss.BuiltMembers | src/assets/qConstructor.js:80 | the generated query's members are the Warren links |
| WarrenTruss.LoadedMembers | src/assets/qConstructor.js:110-116 | a force is loaded exactly on a joint at y = 0, with the lumped load, at -90 degrees |
| WarrenTruss.ForcesOverLoaded | src/assets/qConstructor.js:110-116 | on distinct existing joints and no prior forces, `addForces` adds exactly the loaded forces |
| WarrenTruss.LoadedCount | src/assets/qConstructor.js:111-112 | along a zig-zag starting on the top chord, half the joints (rounded down) are loaded |
| WarrenTruss.InteriorShape | src/assets/qConstructor.js:111 | the `2n - 1` interior joints are joints 1 to `2n - 1` |
| WarrenTruss.InteriorLoads | src/assets/qConstructor.js:110-116 | with non-zero height, exactly the `n - 1` even interior joints carry the load, pointing down |
| WarrenTruss.InteriorIds | src/assets/qConstructor.js:111 | the interior's ids are distinct and are joints' ids |
| WarrenTruss.BuiltForces | src/assets/qConstructor.js:81 | the generated query's forces are the loads on the interior bottom-chord joints |
| WarrenTruss.TenByTwo | src/assets/qConstructor.js:58-117 | for a non-zero height, a 10 bridge of 2 members: 11 joints, 19 members, 4 forces; joint `C` is loaded and `B` is not |
| WarrenTruss.SevenByTwoThrows | src/assets/qConstructor.js:75-77 | a 7 bridge of 2 members throws the not-an-integer error |
| WarrenTruss.DegenerateBuilt | src/assets/qConstructor.js:84-116 | zero sections give one joint; negative sections give none; neither has members or forces |

## Left out

- Integer-like object keys: JavaScript lists array-index-like keys such as
  `"0"` before other keys, whatever their insertion order, so
  `getAllMembers` (`Object.entries`) and `removeJoint` would visit them
  first. The model keeps pure insertion order, which is correct for any id
  that is not an array-index-like string.
- Key coercion: `MemberGraph` stores ids as object keys, which JavaScript
  turns into strings, while `joints`, `hasJoint` and `indexOf` compare with
  strict equality. A non-string id such as the number `5` is therefore
  never found by `hasJoint`, so a second `addJoint(5)` resets its list. The
  key `'__proto__'` never becomes an own key. The model types every joint
  id as a string (`JointId`) and lets it be any key, so neither effect is
  represented.
- `sleep` (`utils.js:400-402`) is a timer-based delay. Host timing is not modelled.
- `toQuery` (`qConstructor.js:48-55`) only JSON-encodes the four fields.
  JavaScript's number formatting is not modelled; the query value is the
  model's output.
- The `null` placeholder actions (forces, `select.COPY`, ghosts),
  `NonActionError` and `ActionFailed` have no behaviour in the code.
- Actions.Reverse: `SetJointId` has no `reverse` of its own. It inherits the
  base class's empty method, which returns `undefined`; the model returns
  `None`.
- Actions.NewAddJoint: passing `null` or `undefined` instead of the point
  array throws a `TypeError` during destructuring, before the null check.
  That path is not modelled; the model takes the two coordinates directly.
- MemberGraphs.MemberGraph.HasAdjacent, MemberGraphs.MemberGraph.AddAdjacent
  and MemberGraphs.MemberGraph.RemoveAdjacent: in the code, reading
  `graph[jointOne]` for an unregistered `jointOne` throws a `TypeError`
  (`utils.js:59, 87, 102`). The model does not represent that error; these
  three members require `a` to be registered instead.
- Actions.NewRemoveJoint: likewise, a `null` or `undefined` point array
  (`utils.js:179`) throws a `TypeError` during destructuring, not
  `MalformedActionError`; the model takes the two coordinates directly.
- Actions.NewMoveJoint: likewise, a `null` or `undefined` displacement array
  (`utils.js:202`) throws a `TypeError` during destructuring, not
  `MalformedActionError`; the model takes the two components directly.
- The `mode`, `placeType`, `unit` and `jointType` tables and the plain
  `Joint`/`Force` holders (`utils.js:1-40`) are used only as types.
- `parseFloat` and the `|| 0` fallback for `jointLoad` (`qConstructor.js:61-64`)
  are not modelled. Loads are taken as numbers.
  - A non-zero `uniformLoad` is the only truthy case modelled.
  - `NaN` loads are not.
- Floating point is modelled as exact real arithmetic. Rounding, `-0`, `NaN`
  and infinities are not represented.
- WarrenTruss.SectionCount: a zero member length is treated as "not an
  integer". In JavaScript the ratio is an infinity or `NaN`, which
  `Number.isInteger` rejects, so the outcome is the same. The ratio is
  computed exactly, so the error path can differ from JavaScript's: a
  bridge of length 0.3 with members of length 0.1 has three sections here,
  while in JavaScript `0.3 / 0.1` is `2.9999999999999996` and the
  constructor throws.
- WarrenTruss.LayoutJoints: the closed forms for the generated joints,
  members and forces assume `65 + numNodes < 2^16`, so that
  `String.fromCharCode` does not wrap. Only `GeneratedWellFormed` covers
  every size.
- WarrenTruss.WarrenTrussConstructor.constructor: in the code the generator
  extends `QueryConstructor`. Here it holds one and calls its methods,
  because inheritance of state is not modelled.
- WarrenTruss.InteriorLoads: the load count `n - 1` is stated for a non-zero
  height. For height 0 every interior joint is on the bottom chord. That
  case is covered only by `BuiltForces` and `LoadedMembers`.
- Page routing, the HTTP server, the canvas layer and the external solver
  are not part of this model.
