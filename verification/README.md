# What the passes before the engines keep

rustdl is an OWL 2 DL reasoner. Before any engine runs, its front half rewrites the
ontology: class expressions become DL-clauses and triggered rules, entailed axioms are
appended, role hierarchies are checked for legality. This project models those passes and
proves what each of them keeps, over every interpretation in the sense of section 2.2 of the
OWL 2 Direct Semantics. An interpretation is given over an arbitrary element type, whose
values are the domain, so a lemma that is generic in that type is about every interpretation.

The pieces, from the meaning of concepts up:

* `Dl`, `Interning` - roles, concepts, axioms and what they mean; the pool's normalising `⊓` and `⊔`
  constructors, what they mean and their exact form; negation normal form.
* `Clauses`, `Clausify`, `ClausifierObject` - DL-clauses, what the clausifier computes as
  functions on states, and the object whose methods compute it in place.
* `Antecedents`, `Consequents`, `Converse`, `AxiomMeaning`, `InverseCanon`, `Faithfulness`,
  `Vocabulary` - the antecedent encoding is an exact disjunctive normal form, structural naming
  is sound in one direction and faithful in the other, so is the whole run, and what its clauses
  say about the vocabulary is stated exactly.
* `Deferral`, `Emitted` - when an axiom is deferred, told from its shape alone, and which trigger
  every clause of an inclusion keeps.
* `Reflexive`, `ReflexiveMeaning` - contraction of reflexive roles and counted self-loops.
* `Branches`, `BranchMeaning`, `BranchBound`, `BranchNames`, `Splitting`, `SplitShape`,
  `BranchNamer` - splitting of wide bodies: an exact conservative extension, which branches are
  named and what stays, a bound on the width of what is named, and one name for all branches that
  are the same up to renaming.
* `BodyShapes`, `FinalShape`, `Pipeline` - the shape of every clause that reaches splitting, and
  the passes in a row, from the axioms to the final clause set.
* `Absorption`, `AbsorptionMeaning`, `AbsorbedTBoxObject` - absorption and its indices.
* `ToldTables`, `Preprocess`, `Appended` - told subsumption and the two passes that append axioms:
  that what they append is entailed, and exactly which axioms they append.
* `RoleLegality`, `UnionFinds`, `Regularity` - simple roles and regular hierarchies.
* `Graphs`, `Closures` - reachability and the three closures of class hierarchies.
* `Ddmin` - the reduction loop. `Handshake` - the parse-deadline protocol.

Loops and objects of the source are methods and classes here, each tied by its `ensures` to
a function on values; what the source promises is then proved about those functions.

## Where the code and its comments differ

The code was followed, and the difference is stated.

* `build_inverse_canon` says it skips a declaration when either role is a key or a value base.
  It looks at keys only (clause.rs:1022-1026), so rewritings can chain (`ChainedExample`). One
  rewriting settles every role iff no declaration is adopted whose right role is a value base at
  that point, which is the check left out (`CanonIdempotent`).
* `add_counted_self_loops` says a loop on a node without an edge cannot change a count
  (clause.rs:1456-1457). It can change the count of a bound of zero: a clause that bounds a
  reflexive role loses nothing iff its bound is not zero (`ZeroBoundLost`, `ZeroBoundsLose`).
* A role repeated in a disjointness axiom is skipped (clause.rs:484-486), which the standard
  reads as emptiness of that role; `RepeatedOperands` says exactly what is lost.
* `clausify_gci` says an antecedent without an encodable conjunct is deferred
  (clause.rs:533-535). It is internalised as a clause without a body (clause.rs:561-572), and
  that is what is modelled.
* The name of a compound `≤` filler is one-way (clause.rs:836-846), so such a restriction in a
  head says nothing about the vocabulary. The clauses say exactly what the axioms do with it read
  as ⊤ (`ClausesSay`), so they give the axioms back iff those follow from that reading
  (`GivenBackIff`); a single `≤` head comes back iff its filler needs no name or the axiom holds
  everywhere (`MaxGivenBackIff`, with `CompoundMaxWeaker` as an instance). `ClausifyExact` is about
  interpretations that read names as what they name.
* `regular` works on rank classes, so it refuses some hierarchies the standard allows
  (`StricterThanStandard`). It accepts exactly those with a legal order on ranks (`Regular`), and
  agrees with the standard when no two roles share a rank (`StandardMet`).

## Model

| member | source | states |
|---|---|---|
| Dl.MkAndSat | crates/owl-dl-core/src/ir.rs:389-411 | the normalising intersection (flatten, drop ⊤, short-circuit on ⊥, sort, dedup, collapse) means intersection, for every intern order |
| Dl.MkOrSat | crates/owl-dl-core/src/ir.rs:421-443 | the normalising union means union, for every intern order |
| Interning.MkAndShape | crates/owl-dl-core/src/ir.rs:379-411 | an intersection is ⊥ when an operand is; otherwise it holds exactly the operands left after flattening and dropping ⊤, in the order of their ids and none twice, none gives ⊤ and one gives that one |
| Interning.MkOrShape | crates/owl-dl-core/src/ir.rs:413-443 | the dual form of unions |
| Interning.MkAndCollides | crates/owl-dl-core/src/ir.rs:386-387 | intersections with the same operands are interned as one concept, however they are written |
| Interning.MkOrCollides | crates/owl-dl-core/src/ir.rs:418-419 | so are unions |
| Dl.NnfSat | crates/owl-dl-core/src/normalize.rs:41-133 | negation normal form keeps the meaning of every concept and the complement form negates it |
| Dl.NnfIsNnf | crates/owl-dl-core/src/normalize.rs:135-155 | both results are in normal form: complements stand on classes, nominals and self-restrictions only |
| Dl.NnfAxiomHolds | crates/owl-dl-core/src/normalize.rs:163-213 | an axiom and its normal form have the same models |
| Antecedents.EncodeExact | crates/owl-dl-core/src/clause.rs:593-675 | an element is in the antecedent iff some alternative is matched by an assignment that differs from the given one on the encoding's fresh variables only |
| Antecedents.EncodeCapped | crates/owl-dl-core/src/clause.rs:45-50 | at most 64 alternatives are ever returned |
| Antecedents.EncodeTree | crates/owl-dl-core/src/clause.rs:602-675 | every alternative is a directed tree rooted at the given variable |
| Deferral.EncodableIff | crates/owl-dl-core/src/clause.rs:602-675 | an antecedent is encoded iff it is built from ⊤, classes, nominals, ⊓, ⊔ and ∃ with at most 64 alternatives after each operand, and then into as many bodies as counted |
| Consequents.EmitGrows | crates/owl-dl-core/src/clause.rs:687-834 | emission only adds clauses and names, uses allocated classes only, and defers nothing on a concept in normal form |
| Consequents.EmitSound | crates/owl-dl-core/src/clause.rs:687-834 | if the body implies the concept and names are read as what they name, every emitted clause holds |
| Consequents.NamelessUnion | crates/owl-dl-core/src/clause.rs:851-989 | a union of classes, individuals, existentials over them and bounds whose filler is ⊤ or one of them outside the datatype classes is stated without a new name iff cardinality atoms are on or no disjunct is a bound |
| Emitted.EmitTriggered | crates/owl-dl-core/src/clause.rs:687-989 | every emitted clause starts with the body it was emitted under or with a new name, and none counts fillers in a datatype class |
| Emitted.GciTriggered | crates/owl-dl-core/src/clause.rs:514-593 | every clause of an inclusion starts with an alternative of its antecedent, or of the encodable conjuncts when the whole is not encodable, or with a new name |
| Converse.EmitFaithful | crates/owl-dl-core/src/clause.rs:687-989 | if the emitted clauses hold and nothing was deferred or dropped, the body implies the concept where names are read as what they name, and everywhere the concept with each `≤` over a compound filler read as ⊤ |
| AxiomMeaning.ContrapositiveSat | crates/owl-dl-core/src/clause.rs:543-593 | moving the hard conjuncts of an antecedent to the head, complemented, says the same as the original inclusion |
| AxiomMeaning.CrossDisjoint | crates/owl-dl-core/src/clause.rs:298-323 | no joint body of two encoded antecedents is matched iff the two concepts are disjoint |
| Faithfulness.AxiomAdds | crates/owl-dl-core/src/clause.rs:287-508 | one axiom's clauses hold where the axiom does, and give back what they carry of it |
| Faithfulness.RepeatedOperands | crates/owl-dl-core/src/clause.rs:475-495 | a role-disjointness axiom holds iff its carried part does and every repeated operand is empty |
| Deferral.AxiomDefers | crates/owl-dl-core/src/clause.rs:287-508 | one axiom in normal form defers iff its kind says so: an inclusion whose encodable conjuncts together exceed the cap, a disjointness with an operand that is not encodable, a disjoint union with a compound member, a chain whose length is not two |
| Deferral.NothingDeferredIff | crates/owl-dl-core/src/clause.rs:282-508 | a run defers nothing iff no axiom has a deferred shape |
| Faithfulness.ClausifySound | crates/owl-dl-core/src/clause.rs:282-508 | every model of the axioms, with nominal classes as singletons and structural names as what they name, satisfies every emitted clause, whatever was deferred |
| Faithfulness.ClausifyFaithful | crates/owl-dl-core/src/clause.rs:282-508 | every interpretation of the clauses with nominal classes as singletons satisfies what the axioms carry with `≤` over compound fillers read as ⊤, so every carried axiom without such a filler, when nothing was deferred (`NothingDeferredIff` says when) and no datatype cardinality dropped |
| Faithfulness.ClausifyExact | crates/owl-dl-core/src/clause.rs:813-846 | with compound `≤` fillers the clauses hold iff the carried axioms do, in interpretations that read names as what they name |
| Faithfulness.InverseCarried | crates/owl-dl-core/src/clause.rs:1004-1031 | the inverse declaration behind a rewriting that is not itself chained holds in how roles are read |
| Vocabulary.EmitExtends | crates/owl-dl-core/src/clause.rs:687-989 | if the body implies the concept with `≤` over compound fillers read as ⊤, new names can be read so that every emitted clause holds, without touching older classes |
| Vocabulary.ClausesSay | crates/owl-dl-core/src/clause.rs:813-846 | an interpretation can be made to satisfy the clauses by reading the structural names iff it satisfies what the axioms carry with each `≤` over a compound filler read as ⊤ |
| Vocabulary.GivenBackIff | crates/owl-dl-core/src/clause.rs:813-846 | every interpretation of the clauses satisfies the carried axioms iff those follow from that weak reading |
| Vocabulary.MaxGivenBackIff | crates/owl-dl-core/src/clause.rs:836-846 | for every encodable antecedent, bound, role and filler, a `≤` head comes back from its clauses iff the filler needs no name or the axiom holds in every interpretation |
| InverseCanon.BuildInverseCanon | crates/owl-dl-core/src/clause.rs:1004-1031 | the loop computes the specified map: first declaration wins, self-inverse and inverted declarations skipped |
| InverseCanon.CanonAcyclic | crates/owl-dl-core/src/clause.rs:1022-1028 | the rewriting map has no cycle, whatever the declarations, and every entry is declared |
| InverseCanon.CanonCovers | crates/owl-dl-core/src/clause.rs:1004-1031 | of two different named roles declared inverse to each other, one is rewritten |
| InverseCanon.CanonDenotes | crates/owl-dl-core/src/clause.rs:233-249 | in every model of the declarations a role and its rewriting denote the same relation |
| InverseCanon.UnchainedIff | crates/owl-dl-core/src/clause.rs:1022-1028 | no rewriting leads to a rewritten role iff no declaration is adopted over a value base |
| InverseCanon.CanonIdempotent | crates/owl-dl-core/src/clause.rs:1022-1028 | rewriting twice is rewriting once for every role iff no declaration is adopted over a value base |
| InverseCanon.ChainedExample | crates/owl-dl-core/src/clause.rs:1022-1028 | two declarations over any three roles, the second adopted over a value base, whose rewritings chain |
| ClausifierObject.Clausifier.EncodeAntecedent | crates/owl-dl-core/src/clause.rs:602-675 | the method computes the encoding and leaves the variable counter where the encoding says |
| ClausifierObject.Clausifier.EmitHead | crates/owl-dl-core/src/clause.rs:687-834 | the method leaves exactly the state the emission function gives |
| ClausifierObject.Clausifier.HeadAtomFor | crates/owl-dl-core/src/clause.rs:851-976 | the method returns the specified head atom and state, naming compounds |
| ClausifierObject.Clausifier.AbsorbHardAntecedent | crates/owl-dl-core/src/clause.rs:543-593 | the method leaves exactly the state of partial absorption |
| ClausifierObject.Clausifier.ClausifyAxiom | crates/owl-dl-core/src/clause.rs:287-508 | the method leaves exactly the state of one axiom |
| Reflexive.ReflexiveRoleIds | crates/owl-dl-core/src/clause.rs:1317-1361 | the result is exactly the roles reachable upward from a declared reflexive role |
| Reflexive.RoleEdgesExact | crates/owl-dl-core/src/clause.rs:1333-1350 | the edges are exactly the inclusions and equivalences stated between roles, read through the rewriting |
| Reflexive.ReflexiveIdsHold | crates/owl-dl-core/src/clause.rs:1317-1321 | each of them is reflexive in every model of the ontology |
| Reflexive.ContractClause | crates/owl-dl-core/src/clause.rs:1393-1444 | one popped clause is fully processed, or the cap is reached, and its pushed contractions weigh less than it |
| Reflexive.ContractShape | crates/owl-dl-core/src/clause.rs:1400-1417 | contraction of an edge keeps `X` and otherwise the source end; every other atom stays in its place, unchanged unless it mentions the end that goes, which no atom mentions afterwards |
| Reflexive.ApplyReflexiveRoles | crates/owl-dl-core/src/clause.rs:1382-1446 | the worklist ends with or without its cap and only appends contractions, at most 4096 and none twice, none with a head atom in its own body or a reflexive self-loop in its head; it is capped with exactly 4096, else closed under contraction up to such clauses |
| ReflexiveMeaning.ContractSound | crates/owl-dl-core/src/clause.rs:1367-1374 | where the role is reflexive a clause entails its contraction |
| ReflexiveMeaning.ReflexiveSound | crates/owl-dl-core/src/clause.rs:1382-1490 | every derived and every self-loop clause holds in every model where the ids are reflexive |
| ReflexiveMeaning.ReflexiveLosesNothing | crates/owl-dl-core/src/clause.rs:1382-1490 | any interpretation of the final clauses, with each reflexive role unioned with the identity, satisfies all the original clauses, when the cap is not hit and no head bounds a reflexive role by zero |
| ReflexiveMeaning.ContractionComplete | crates/owl-dl-core/src/clause.rs:1382-1446 | the same for a closed set whose bounded elements count themselves, so also when no head bounds a reflexive role at all |
| ReflexiveMeaning.AddCountedSelfLoops | crates/owl-dl-core/src/clause.rs:1461-1490 | exactly one self-loop clause for each bound on a reflexive role, without repetitions |
| ReflexiveMeaning.LoopGuarded | crates/owl-dl-core/src/clause.rs:1453-1457 | each of them keeps the body and adds an edge of the bounded role to a variable the clause does not mention |
| ReflexiveMeaning.ZeroBoundsLose | crates/owl-dl-core/src/clause.rs:1456-1457 | for every closed clause set whose heads are classes, bounds on reflexive roles or edges and successors along others, nothing is lost iff no head bounds a reflexive role by zero |
| ReflexiveMeaning.ZeroBoundLost | crates/owl-dl-core/src/clause.rs:1456-1457 | for every body, role, qualifier and bound, a clause that bounds a reflexive role loses nothing iff the bound is not zero |
| BranchMeaning.BranchesForward | crates/owl-dl-core/src/clause.rs:1154-1281 | a match of the body is a match of the rewritten body when branch classes hold what their branches match |
| BranchMeaning.BranchesBack | crates/owl-dl-core/src/clause.rs:1154-1281 | a match of the rewritten body gives a match of the body that keeps the root and every variable to be kept |
| BranchMeaning.BranchesWf | crates/owl-dl-core/src/clause.rs:1136-1142 | a `None` leaves names, memo and counter untouched, and names only grow otherwise |
| BranchBound.BranchesExact | crates/owl-dl-core/src/clause.rs:1154-1289 | for a tree-shaped body, self-loops allowed, and any variables to keep: something is named iff some child of the root has none of them in its subtree, and then exactly the atoms over the root and the other subtrees are left, with branch classes on the root; every branch named at any depth has at most 8 variables |
| BranchBound.TreeSplits | crates/owl-dl-core/src/clause.rs:1154-1289 | with nothing to keep only the root is left |
| BranchBound.ClauseSplits | crates/owl-dl-core/src/clause.rs:58-83 | the same for a wide clause with any head: it is rewritten iff a child of `X` has no head variable below it, otherwise clause and names stay as they were |
| BranchBound.HeadOnRootSplits | crates/owl-dl-core/src/clause.rs:58-83 | a wide tree-shaped clause with a head on `X` becomes a clause on `X` |
| BranchNames.RenumberCanonical | crates/owl-dl-core/src/clause.rs:1291-1315 | two branches get one canonical form, and so one name, iff they are the same atom by atom up to a one-to-one renaming that takes root to root |
| SplitShape.DecomposeShape | crates/owl-dl-core/src/clause.rs:1085-1115 | each clause keeps its place and head, those of at most 8 variables unchanged and the wide trees split as `ClauseSplits` says; the branch clauses follow in the order of their classes, no two the same up to renaming, all within the cap when the wide clauses are trees |
| Splitting.DecomposeExact | crates/owl-dl-core/src/clause.rs:86-99 | an interpretation satisfies the clauses iff one that differs on the fresh branch names only satisfies the result |
| BranchNamer.DiscoverTree | crates/owl-dl-core/src/clause.rs:1154-1205 | the discovery loop computes who binds whom, in order, and which atoms are placed |
| BranchNamer.RenumberAtoms | crates/owl-dl-core/src/clause.rs:1291-1315 | the loop computes the canonical renumbering, root first, the rest by first appearance |
| BranchNamer.Splitter.NameAll | crates/owl-dl-core/src/clause.rs:1154-1281 | the recursive method returns and leaves exactly what the naming function gives |
| BranchNamer.Splitter.DecomposeWideBodies | crates/owl-dl-core/src/clause.rs:1085-1115 | the loop over the clauses computes the splitting function |
| BodyShapes.RunShape | crates/owl-dl-core/src/clause.rs:282-508 | every emitted clause has a body of class and role atoms that is a tree from `X` on, self-loops aside, with the head on it, or denies a body of at most two variables |
| FinalShape.ContractShaped | crates/owl-dl-core/src/clause.rs:1400-1417 | contraction keeps both shapes |
| FinalShape.WideAreTrees | crates/owl-dl-core/src/clause.rs:1128-1142 | every wide clause that reaches splitting is a tree with self-loops |
| Pipeline.ClausifyWithStats | crates/owl-dl-core/src/clause.rs:1035-1080 | normal form, inverse rewriting, clauses, reflexive roles and splitting, in this order, with the number of deferrals |
| Pipeline.PipelineSound | crates/owl-dl-core/src/clause.rs:1035-1080 | every model of the ontology becomes a model of the final clauses that reads every named class, role and individual alike, whatever was deferred, capped or left unsplit; so clauses without a model mean an ontology without one |
| Pipeline.PipelineFaithful | crates/owl-dl-core/src/clause.rs:1035-1080 | every interpretation of the final clauses, with reflexive roles unioned with the identity, satisfies what the axioms carry (`≤` over compound fillers read as ⊤), every reflexivity axiom, every inverse declaration behind an unchained rewriting, and every role inclusion it satisfied before |
| Pipeline.PipelineShape | crates/owl-dl-core/src/clause.rs:1035-1115 | in the result of the whole pass each clause stands in its place, split exactly as its shape says, since every wide one is a tree; the branch clauses follow, none twice and all within 8 variables |
| Pipeline.DeferredIff | crates/owl-dl-core/src/clause.rs:1035-1080 | nothing is deferred iff no normal form of an axiom has a deferred shape |
| Pipeline.IdentityKeepsInclusion | crates/owl-dl-core/src/clause.rs:1333-1361 | adding the identity keeps every role inclusion and role equivalence, because the ids are closed upward through them |
| Pipeline.AntecedentSplits | crates/owl-dl-core/src/clause.rs:1128-1142 | every wide clause an antecedent gives rise to splits fully |
| Pipeline.CompoundMaxWeaker | crates/owl-dl-core/src/clause.rs:836-846 | the clauses of `⊤ ⊑ ≤0 r.(A ⊓ B)` hold in an interpretation where the axiom fails |
| AbsorptionMeaning.GciMeans | crates/owl-dl-core/src/absorb.rs:603-642 | wherever `⊤ ⊑ φ` is filed, the table says the same as before and `φ` everywhere |
| AbsorptionMeaning.SubSupMeans | crates/owl-dl-core/src/absorb.rs:574-601 | filing `sub ⊑ sup`, a union on the left taken apart first, says exactly `sub ⊑ sup` |
| AbsorptionMeaning.DomainRuleMeans | crates/owl-dl-core/src/absorb.rs:345-397 | a residual with antecedent `∃R.⊤` is the unguarded rule for `R⁻` with the other disjuncts as target |
| AbsorptionMeaning.NominalRuleMeans | crates/owl-dl-core/src/absorb.rs:461-520 | a residual with antecedent `∃R.{a}` is `{a} ⊑ ∀R⁻` of the other disjuncts |
| AbsorptionMeaning.AbsorbExact | crates/owl-dl-core/src/absorb.rs:174-282 | an interpretation satisfies the TBox axioms iff it satisfies every rule and residual, for every setting of the two flags |
| AbsorptionMeaning.AbsorbRolesMeans | crates/owl-dl-core/src/absorb.rs:186-282 | the second pass says what it was given, also for a table built by hand |
| AbsorptionMeaning.AbsorbNormalForm | crates/owl-dl-core/src/absorb.rs:191-260 | with both passes on no residual is a bare `∀`, and no disjunct of one is a negated class or individual, a `∀` over ⊥ or a negated individual, or a `≤0` over ⊤ or an individual; each flag alone rules out its own shapes |
| AbsorptionMeaning.ResidualsExact | crates/owl-dl-core/src/absorb.rs:186-282 | the residuals of the second pass are those of the first without the bare `∀` and without the shapes the flags in force remove, each as often as it was there |
| AbsorptionMeaning.AbsorbRolesTwice | crates/owl-dl-core/src/absorb.rs:186-282 | a second run with the same flags changes nothing |
| AbsorptionMeaning.DeferredExact | crates/owl-dl-core/src/absorb.rs:256-278 | the deferred residuals are the unions among the residuals, as often as they occur, in intern order |
| AbsorbedTBoxObject.AbsorbedTBox.Finalize | crates/owl-dl-core/src/absorb.rs:105-141 | dispatch yields for every trigger, individual and guard what a linear scan yields, whatever the indices held before |
| AbsorbedTBoxObject.AbsorbedTBox.AbsorbGci | crates/owl-dl-core/src/absorb.rs:605-642 | the method files a GCI under its first trigger or with the residuals |
| AbsorbedTBoxObject.AbsorbedTBox.RewriteRoles | crates/owl-dl-core/src/absorb.rs:191-282 | the method leaves exactly the state of the second pass, with the indices up to date |
| AbsorbedTBoxObject.AbsorbOntology | crates/owl-dl-core/src/absorb.rs:174-182 | a fresh table holds exactly what absorption gives, indexed |
| ToldTables.ToldSubHolds | crates/owl-dl-core/src/told.rs:12-24 | told subsumption, closed transitively, holds in every model |
| ToldTables.ToldEdgesExact | crates/owl-dl-core/src/told.rs:103-140 | the told edges are exactly the inclusions stated between classes, by inclusion, equivalence or disjoint union |
| ToldTables.ToldDisjointExact | crates/owl-dl-core/src/told.rs:103-170 | the told disjoint pairs are exactly the stated ones, both ways round |
| ToldTables.DisjointHolds | crates/owl-dl-core/src/told.rs:12-24 | a told disjoint pair is disjoint in every model of its axiom |
| ToldTables.Search | crates/owl-dl-core/src/told.rs:190-213 | the breadth-first search finds exactly what is reachable and marks exactly what it finds |
| ToldTables.Unmark | crates/owl-dl-core/src/told.rs:184-219 | the marks shared by all searches go out clear |
| ToldTables.BuildToldTables | crates/owl-dl-core/src/told.rs:103-250 | the rows are the reflexive-transitive closure upward and downward and the disjoint pairs, ascending |
| ToldTables.ToldUnique | crates/owl-dl-core/src/disjunction_existential.rs:35-51 | two builds for the same axioms are equal, so reusing tables is rebuilding them |
| Preprocess.MinimalCommonSubsumers | crates/owl-dl-core/src/disjunction_existential.rs:209-261 | the retain loop and the filter compute the specified list, empty for fewer than two or non-atomic disjuncts |
| Preprocess.MinimalCommonCovers | crates/owl-dl-core/src/disjunction_existential.rs:235-261 | every returned class is common with no common class strictly below it, and every common class lies above a returned one, equivalence cycles included |
| Preprocess.ExistentialsSound | crates/owl-dl-core/src/disjunction_existential.rs:52-159 | every axiom the first pass appends is entailed |
| Preprocess.ForcedSound | crates/owl-dl-core/src/approx_saturation.rs:37-95 | every forced disjunct and every `C ⊑ ⊥` is entailed |
| Appended.MinimalExact | crates/owl-dl-core/src/disjunction_existential.rs:209-261 | the minimal common subsumers of a union of classes are exactly the least classes stated above all of them |
| Appended.ExistentialsExact | crates/owl-dl-core/src/disjunction_existential.rs:52-159 | an axiom is appended iff it is due by the stated axioms: for an existential over a union, a bare union, an equivalence with a union in both directions, a domain or a range, one for each least class above the disjuncts, unless it says nothing |
| Appended.CommonCovered | crates/owl-dl-core/src/disjunction_existential.rs:126-133 | for every class above all disjuncts of an existential some appended axiom has a filler below that class |
| Appended.ForcedExact | crates/owl-dl-core/src/approx_saturation.rs:37-95 | a disjunct is appended iff every other one is stated apart from the class or from something above it, and `C ⊑ ⊥` iff all are |
| Appended.PreprocessedExact | crates/owl-dl-core/src/approx_saturation.rs:32-41 | both passes in a row append exactly those axioms, the second over what the first left |
| Preprocess.PreprocessSameModels | crates/owl-dl-core/src/approx_saturation.rs:3-18 | both passes in a row keep exactly the same models |
| Preprocess.InternalOntology.DeriveDisjunctionExistentials | crates/owl-dl-core/src/disjunction_existential.rs:52-159 | the method appends exactly the specified axioms and hands tables back iff it appended none, and then they are those of the ontology as it stands |
| Preprocess.InternalOntology.DeriveForcedDisjunctsWith | crates/owl-dl-core/src/approx_saturation.rs:37-95 | the method appends exactly the forced axioms, with tables given or rebuilt |
| Preprocess.InternalOntology.RunBoth | crates/owl-dl-core/src/approx_saturation.rs:32-41 | the second pass may reuse the first one's tables |
| RoleLegality.EdgesExact | scripts/gen/gen.py:656-674 | the sub-role edges are exactly the steps of the object property hierarchy of section 11 |
| RoleLegality.Reach | scripts/gen/gen.py:677-691 | the stack loop computes reachability for every node |
| RoleLegality.SimpleRoles | scripts/gen/gen.py:694-706 | a name is returned iff neither of its expressions is above a composite one (section 11.1) |
| UnionFinds.UnionFind.Find | scripts/gen/gen.py:716-720 | the root is found, and halving the path moves no expression to another tree |
| UnionFinds.UnionFind.Union | scripts/gen/gen.py:722-723 | two trees become one and no other changes |
| Regularity.MergeClasses | scripts/gen/gen.py:725-732 | the two tables tell exactly mutual reachability, and that up to inverse |
| Regularity.ChainConstraints | scripts/gen/gen.py:733-750 | the strict pairs are exactly those the chains force, or some leg has the rank of its head |
| Regularity.CycleSearch.Cyclic | scripts/gen/gen.py:757-766 | the depth-first search reports a cycle only when there is one and otherwise finishes the node after all its successors |
| Regularity.AnyCycle | scripts/gen/gen.py:753-769 | the search over all sources decides whether the constraint graph has a cycle |
| Regularity.Below | scripts/gen/gen.py:777-788 | whether one rank class is forced strictly below another |
| Regularity.Regular | scripts/gen/gen.py:709-774 | True is returned iff a strict partial order that does not tell expressions of one rank apart meets every condition of section 11.2 |
| Regularity.ForcedLegal | scripts/gen/gen.py:709-774 | when the test accepts, the order forced by the chains meets every condition of section 11.2 |
| Regularity.StricterThanStandard | scripts/gen/gen.py:724-750 | four axioms that are legal by section 11.2 and refused by the test |
| Regularity.StandardMet | scripts/gen/gen.py:709-774 | where no two roles share a rank, an order on ranks exists iff a legal order does |
| Regularity.GreedyResult | scripts/gen/gen.py:126-131 | greedy drawing ends with the start and a subsequence of what was drawn, legal, and each axiom left out was refused by a prefix of the result |
| Regularity.KeepRegular | scripts/gen/gen.py:126-131 | the redraw loop computes the greedy choice from nothing |
| Regularity.AddRegular | scripts/gen/gen.py:477-480 | the greedy loop computes the greedy choice over the existing axioms, adding none twice |
| Closures.Closure | scripts/owl_readers.py:32-56 | exactly the off-diagonal pairs joined by a non-empty path through edges and cliques with both ends kept |
| Closures.Hierarchy.constructor | scripts/owl_readers.py:74-88 | consistency, unsatisfiable and ⊤-equivalent classes are those the answer states, and the pairs are its closure |
| Closures.Hierarchy.OwnClosure | scripts/owl_readers.py:90-95 | the closure between classes neither unsatisfiable nor ⊤-equivalent |
| Closures.SplitUnsat | scripts/owl_readers.py:98-111 | what is stated below or equivalent to ⊥ goes to the unsatisfiable classes and the rest stays in order |
| Closures.BuildAdjacency | scripts/closure-diff.py:66-99 | the graph is the stated edges and cliques without self-loops, every end a key |
| Closures.AncestorsBfs | scripts/closure-diff.py:107-124 | exactly the other nodes reachable from the start |
| Closures.TransitiveClosure | scripts/closure-diff.py:127-133 | exactly the off-diagonal pairs joined by a path |
| Closures.ClosuresAgree | scripts/owl_readers.py:32-56 | the two closures have the same pairs when nothing is dropped and no node is ⊤ or ⊥ |
| Closures.MemoisedAncestors.Anc | scripts/closure-diff.py:155-171 | the recursive method computes the memoised answer and memo |
| Closures.AncestorsSound | scripts/closure-diff.py:142-175 | on any graph the memoised answers hold reachable nodes only |
| Closures.MemoExactIff | scripts/closure-diff.py:142-175 | asked about every node of a graph without self-loops, the memo is exact iff the graph has no cycle |
| Closures.MemoRightOff | scripts/closure-diff.py:142-175 | where nodes that reach each other have the same successors, cycles or not, the memo is right off the diagonal for every node asked about in any order |
| Closures.MemoMisses | scripts/closure-diff.py:142-153 | a cycle of three on which the memo misses an ancestor |
| Ddmin.Pass | scripts/gen/shrink.py:103-112 | one pass keeps a passing subsequence, within the rest after the first chunk when that rest passes; without progress no trial at a multiple of the chunk passed |
| Ddmin.Reduce | scripts/gen/shrink.py:99-119 | for any deterministic test the loop ends with a subsequence that still passes and is 1-minimal; when the second half passes, it comes from that half |
| Ddmin.FailedSingles | scripts/ddmin-inconsistent-core.py:31-50 | a pass over single members without progress shows 1-minimality |
| Handshake.InvStep | crates/owl-dl-cli/src/main.rs:874-918 | every action of either thread keeps the invariant |
| Handshake.NeverBoth | crates/owl-dl-cli/src/main.rs:871-873 | in no run are the worker's answer and the empty one both printed |
| Handshake.ClassifiesAfterGo | crates/owl-dl-cli/src/main.rs:787-807 | the worker classifies only after the go-ahead was sent |
| Handshake.NoDeadlock | crates/owl-dl-cli/src/main.rs:874-918 | until the process is over some thread can move, without help of the deadline |
| Handshake.RunsEnd | crates/owl-dl-cli/src/main.rs:874-918 | every run is over within nine actions |
| Handshake.RunOutcome | crates/owl-dl-cli/src/main.rs:860-918 | a run ends in the worker's own result, in exactly one of the two answers, or in a failure to write the empty one; the worker's silence is never the result |
| Handshake.CutNeedsDeadline | crates/owl-dl-cli/src/main.rs:890-918 | the empty answer, or a failure to write it, means the deadline was taken before |
| Handshake.DeadlineStopsGo | crates/owl-dl-cli/src/main.rs:895-918 | after the deadline the go-ahead is never sent and the worker never prints |
| Handshake.InTimeOutcome | crates/owl-dl-cli/src/main.rs:860-918 | a run over without the deadline ends in the worker's own result or exits with its answer |
| Handshake.ReportedOutcome | crates/owl-dl-cli/src/main.rs:890-894 | a run over after the report was received has sent the go-ahead and hands back the worker's classification or its exit |
| Handshake.LateOutcome | crates/owl-dl-cli/src/main.rs:895-918 | a run over after the deadline has the empty answer printed and exits, or failed to write it |
| Handshake.HandedBack | crates/owl-dl-cli/src/main.rs:860-918 | each result handed back is the worker's: an answer was printed, an error or panic was the worker's own |
| Handshake.ResultsHappen | crates/owl-dl-cli/src/main.rs:860-918 | every result but silence is handed back in some run |
| Handshake.ExitsHappen | crates/owl-dl-cli/src/main.rs:860-918 | both answers, and a failure to write the empty one, happen in some run |

## Left out

- Id arithmetic: class, role and variable ids are unbounded, so the panics of the source on overflow and the `n + 1` of a complemented `≤n` at the largest `u32` are not modelled.
- Interning of ids: concepts are values and the pool is an order on them, which stands for the intern ids; growth of the pool and sharing are not modelled.
- Assertions and the RBox axioms that fall to the catch-all of `clausify_axiom`: they carry nothing here. `IdentityKeepsInclusion` covers the role inclusions only.
- PipelineSound: says that a model exists, not which; the chain of readings is in the lemmas it calls.
- PipelineFaithful: asks that no axiom is of a deferred shape, that the cap was not hit, that no clause bounds a reflexive role by zero and that no datatype cardinality is dropped. What compound fillers and zero bounds lose is exact in `ClausesSay` and `ZeroBoundsLose`, which are not joined into one equivalence for the whole pass. Symmetry and functionality of a role the identity is added to are not regained.
- ReflexiveLosesNothing: the condition on zero bounds is exact for the heads of `ZeroBoundsLose`; for heads that mix a bound of zero with other atoms, are empty, or hold `≥` or equality atoms, it suffices.
- Reflexive.ApplyReflexiveRoles: says which clauses the result may and must hold, not the order in which the worklist finds them; the redundant contractions it drops are covered by an invariant and not listed.
- BranchesExact: is about trees with self-loops, which is every wide clause of the pass (`WideAreTrees`); for other bodies what is named depends on the order of the atoms.
- ClausifyWithStats: the census of deferral kinds, the counts of rewritten and refused clauses, and warnings are not returned; they are counters and text only.
- The environment variables: their switches are Boolean parameters.
- MinimalCommonSubsumers: binary search in a sorted row is membership, and an id outside the vocabulary, where the source panics, reads as an empty row.
- BuildToldTables: the adjacency lists and the disjoint sets are built as set comprehensions.
- Regular: role names are numbers, and dictionaries and sets are walked in any order.
- KeepRegular: the random drawing of axioms before the loop is not part of this model.
- Closures.Closure: iteration order is arbitrary; parsing of the reasoners' output is not part of this model.
- MemoExactIff: speaks of the memo with its diagonal; off the diagonal `MemoRightOff` gives a condition that covers equivalence groups with shared superclasses, not every cyclic graph that happens to come out right.
- Reduce: the test is a total function, so an external reasoner that answers differently on the same input is outside it.
- Handshake: time is an action that may happen whenever the main thread waits; threads, channels and printing are steps of a state machine, and a crash of the process from outside is not a step.
- The tableau, the hypertableau engine, the saturation engine, datatypes, conversion from and to OWL syntax, and the command line: what clauses and rules mean is stated, not how engines search.
