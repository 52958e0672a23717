# Gecode region memory and complete-set cardinality constraints

This project is a Dafny model of two pieces of the Gecode constraint solver.

**Region memory** (`kernel_region.dfy`, module `Kernel`). A `Region` is a handle on a space's scratch area.
- At construction it records the area's free cursor (`freeReset`).
- `Ralloc` hands out memory from the area while enough remains. Otherwise it falls back to a heap block. The region records each heap block in `hi`, which goes from none to a single block to a list.
- `Rfree` does nothing.
- `Destroy` (the destructor) puts the cursor back and releases every recorded heap block.
- The typed routines `Alloc`, `Free` and `Realloc` work on arrays of object slots. Each slot is `Raw`, `Live(value)` or `Dead`, so running constructors and destructors is visible.
- Sizes are abstract units, and `unit` plays the part of `sizeof(T)`.
- The scratch area (`RegionArea`) is a cursor that hands out memory downwards; the direction is an assumption of this model, since region.hpp does not fix it. The heap (`Heap`) is a set of live block identities plus the next fresh identity.
- Three scenario methods state the discipline the regions rely on:
  - `NestedRegions`: destroying the inner of two nested regions keeps the outer region's memory; destroying both restores the area and the heap.
  - `ScopedRequests`: any sequence of raw requests on one region leaves nothing behind once the region is destroyed.
  - `OutOfOrderDestruction`: destroying an older region first hands the younger region's memory out again and loses the older region's memory.

**Complete-set constraints** (`cpltset_bdd.dfy`, `cpltset_space.dfy` and `atmost.dfy`; modules `CpltSetBdd`, `CpltSetSpace` and `AtMost`). These cover `exactly`, `atmost` (over a value set, and over two or three set variables), `atmostLex`, `atmostLexCard`, `atmostCard` and `atmostOne`.
- A set variable over the values `[min, min + width)` owns the bit variables `[offset, offset + width)`.
- A decision diagram is modelled by what it denotes: a predicate over assignments of the bit variables. Two diagrams are the same diagram when they agree on every assignment (`Same`).
- The diagram builders the constraints call are given specification functions: `cardcheck`, `extcardcheck`, `cardConst`, `lexlt`, `lexlq`, `lexltrev` and `lexlqrev`.
- Each builder is proved against an independent reference definition:
  - bit counts agree with the size of the set of values whose bit is on;
  - for views over one universe, the intersection count agrees with the size of the intersection of the two value sets;
  - the lexicographic builders agree with the standard lexicographic order on bit strings (`LexLess`);
  - the forward and reverse relations read the same bits in opposite orders.
- Each entry point is a method on a `Space`. Its effect is stated by the two-state predicate `Space.Did`, which says one of four things:
  - nothing happened;
  - the space failed;
  - a value was forced into a variable;
  - a propagator with a given diagram was posted.
- Whether the propagator's own post succeeds is decided by the propagator, which is outside this model. It enters as the parameter `accepted`.
- The lexicographic relations `CpltSetRelType` are modelled as an order (less, greater, less-or-equal, greater-or-equal) paired with a direction (forward, reverse), which gives the eight relations.
- The `SetRelType` overloads of `atmost_post` never read their relation, so they are modelled as "no lex conjunct" (`lex == None`).
- `atmost_con` and `atmostOne_con` only wrap variables into views, so the public entry points call the post methods directly.

Behaviour of the code that a caller may not expect:
- `exactly` returns with nothing posted when glb(x) ∩ is has exactly one value, whatever `c` is. So for c ≠ 1 it does not enforce "exactly c" on that path (`GlbShortcutLeavesUnknownOpen`).
- `exactly` forces the single remaining candidate value of unknown(x) ∩ is into x without looking at `c`.
- `exactly` fails the space when glb(x) ∩ is has two or more values, even when c is at least that large (`ExactlyAction`).
- `exactly` fails the space when neither glb(x) ∩ is nor unknown(x) ∩ is has a value, even for c = 0 (`ExactlyAction`).
- The glb shortcut posts nothing even when values of `is` are still undecided. An assignment can then give x two or more of them (`GlbShortcutLeavesUnknownOpen`).
- Only the ternary form of `atmost` uses an auxiliary set z. The binary form bounds the intersection with `extcardcheck` directly. `TernaryBoundsIntersection` shows the two agree when z is linked to x ∩ y.
- `atmostOne` requires every view to have exactly c elements and every two views to share at most one element.
- `extcardcheck`, and so every intersection bound, pairs the bits of x and y by position over x's width. For views over one universe (same minimum and width) this is the number of common values (`SharedOfIsSize`). For other views it counts common positions.
- The lex conjunct compares y's bits over x's width (`xtab`); the lex conjunct never reads y's width.
- The ternary form links z to x ∩ y only on the bits of y (`x1_tab`).

## Model

| member | source | states |
|---|---|---|
| Kernel.Region.constructor | gecode/kernel/region.hpp:155-156 | the region remembers the area's current cursor as `freeReset` and starts with no heap block |
| Kernel.Region.Ralloc | gecode/kernel/region.hpp:158-164 | memory comes from the area (cursor lowered by s, address at the new cursor, heap untouched) exactly when s units remain; otherwise a fresh heap block, distinct from all live ones, is taken and recorded in `hi`, and the cursor is untouched |
| Kernel.Region.Rfree | gecode/kernel/region.hpp:166-167 | returning a block changes neither the region, the area, the heap nor the block |
| Kernel.Region.Destroy | gecode/kernel/region.hpp:169-174 | the cursor is set back to `freeReset`, and exactly the recorded heap blocks are released, so none of them is live afterwards |
| Kernel.Region.HeapAlloc | gecode/kernel/region.hpp:73-82 | a fresh heap block becomes live and is added to the record |
| Kernel.Region.HeapFree | gecode/kernel/region.hpp:84-84 | every recorded block, and nothing else, leaves the live set |
| Kernel.Record | gecode/kernel/region.hpp:64-80 | recording a block adds exactly that block to the recorded set, never leaves the record empty, and keeps the list form for two or more blocks |
| Kernel.RegionArea.Alloc | gecode/kernel/region.hpp:161-161 | the area grants a request exactly when that many units remain, lowering the cursor by the request |
| Kernel.Region.Alloc | gecode/kernel/region.hpp:181-188 | the result is a new block of n slots, every one of them default-constructed, and the raw request is `unit * n` |
| Kernel.Region.Free | gecode/kernel/region.hpp:190-196 | exactly the n slots from `start` are destroyed; no other slot, and no memory, changes; the block is then handed to `Rfree` with `unit * n` |
| Kernel.Region.Realloc | gecode/kernel/region.hpp:198-213 | growing: a new block of m slots whose first n are the old objects and whose rest are default-constructed, with all n old objects destroyed; otherwise: the same block, with exactly the slots in [m, n) destroyed and no memory touched |
| Kernel.WrittenShrinkCount | gecode/kernel/region.hpp:210-210 | the written count `m-n` is a 32-bit value congruent to m - n |
| Kernel.ShrinkCountWraps | gecode/kernel/region.hpp:209-211 | for m < n the written count is 2^32 - (n - m), which reaches past the block's n objects when n - m < 2^31 (4294967294 for n = 3, m = 1) |
| Kernel.NestedRegions | gecode/kernel/region.hpp:43-48 | destroying the inner region keeps the outer region's memory (the cursor stays s units down when the area granted s, and the outer region's heap blocks stay live); destroying both restores the cursor and the live heap |
| Kernel.ScopedRequests | gecode/kernel/region.hpp:49-51 | after any sequence of requests on one region and its destruction, the cursor is back and no heap block it took is live |
| Kernel.OutOfOrderDestruction | gecode/kernel/region.hpp:169-171 | after an older region is destroyed before a younger one, a new region's request of s + t units is handed the very address the younger region still holds, and once everything is destroyed the cursor is s units short of where it started |
| CpltSetSpace.Space.Fail | gecode/cpltset/constraints/atmost.cc:366-366 | the space is failed and nothing else changes |
| CpltSetSpace.Space.Include | gecode/cpltset/constraints/atmost.cc:386-386 | forcing a value still allowed by the domain records the inclusion; any other value fails the space |
| CpltSetSpace.Space.Post | gecode/cpltset/constraints/atmost.cc:399-400 | an accepted post appends the propagator; a rejected one fails the space |
| CpltSetBdd.PopCountIsSize | gecode/cpltset/constraints/atmost.cc:71-71 | the cardinality builder's count is the number of values min + i whose bit i is on |
| CpltSetBdd.InterCountIsSize | gecode/cpltset/constraints/atmost.cc:210-210 | the intersection count of `extcardcheck` is the number of values min + i whose bit i is on in both ranges |
| CpltSetBdd.InterCountBounded | gecode/cpltset/constraints/atmost.cc:210-210 | the intersection count of `extcardcheck` is at most each operand's own count |
| CpltSetBdd.PopCountOfLinked | gecode/cpltset/constraints/atmost.cc:94-106 | when z's bits are the AND of x's and y's, z's count is the intersection count of x and y |
| CpltSetBdd.LexDownMeaning | gecode/cpltset/constraints/atmost.cc:145-163 | `lexlt` / `lexlq` from bit `start` down accept exactly the assignments whose bit strings, read from the top, are lexicographically < / <= |
| CpltSetBdd.LexUpMeaning | gecode/cpltset/constraints/atmost.cc:165-183 | `lexltrev` / `lexlqrev` from bit `start` up accept exactly the assignments whose bit strings, read from bit 0, are lexicographically < / <= |
| CpltSetBdd.LexTrichotomy | gecode/cpltset/constraints/atmost.cc:150-162 | of a < b, a == b and b < a exactly one holds, which makes the swapped-offset builders the converse relations |
| CpltSetBdd.DownIsReversedUp | gecode/cpltset/constraints/atmost.cc:165-183 | the string read from the top bit down is the reverse of the string read from bit 0 up |
| AtMost.LexConjunct | gecode/cpltset/constraints/atmost.cc:213-259 | the lex conjunct of each of the eight relations: `lexlt` / `lexlq` from the top bit for the forward ones, `lexltrev` / `lexlqrev` from bit 0 for the reverse ones, with the offsets swapped for the greater relations |
| AtMost.LexConjunctMeaning | gecode/cpltset/constraints/atmost.cc:213-259 | each of the eight relations accepts exactly the assignments where x's string stands in that order to y's, read in the relation's direction |
| AtMost.GreaterIsConverse | gecode/cpltset/constraints/atmost.cc:219-253 | x > y holds exactly when x <= y fails, and x >= y exactly when x < y fails, in both directions |
| AtMost.ForwardIsReversedReverse | gecode/cpltset/constraints/atmost.cc:234-253 | a forward relation compares the same bits as its reverse form, in the opposite order |
| AtMost.DomainMeaning | gecode/cpltset/constraints/atmost.cc:267-273 | the fixed-domain conjunct holds exactly when the variable's value is its lower bound |
| AtMost.BinaryPred | gecode/cpltset/constraints/atmost.cc:209-273 | the binary diagram: `extcardcheck(x, y, 0, c)`, then the lex conjunct when one is chosen, the two cardinality conjuncts when card > -1, and the domain of each assigned view |
| AtMost.BinaryPredMeaning | gecode/cpltset/constraints/atmost.cc:197-310 | the binary diagram holds iff at most c bit positions are on in both x and y, the chosen lex order holds, x and y both have card bits on when card > -1, and every assigned view takes its fixed value |
| AtMost.CardOfIsSize | gecode/cpltset/constraints/atmost.cc:262-263 | a view's bit count is the size of the set the view takes |
| AtMost.SharedOfIsSize | gecode/cpltset/constraints/atmost.cc:210-210 | for views over one universe, the position-wise count of `extcardcheck` is the number of values the two sets have in common |
| AtMost.BinaryPredValues | gecode/cpltset/constraints/atmost.cc:197-310 | for views over one universe, the binary diagram holds iff x and y have at most c common elements, the chosen lex order holds, both sets have card elements when card > -1, and every assigned view takes its fixed value |
| AtMost.AtmostBinaryPost | gecode/cpltset/constraints/atmost.cc:197-310 | nothing happens on a failed space; otherwise the binary diagram over x and y is posted |
| AtMost.IntersectionLinksMeaning | gecode/cpltset/constraints/atmost.cc:93-96 | the links hold exactly when each of z's bits is the AND of x's and y's |
| AtMost.BuildTernary | gecode/cpltset/constraints/atmost.cc:112-195 | the countdown loop builds the same diagram as the ternary specification |
| AtMost.TernaryPred | gecode/cpltset/constraints/atmost.cc:91-190 | the ternary diagram: the links z_i <-> x_i & y_i on y's bits, `cardcheck` on z with bounds 0 and c, and the lex conjunct of x and y when one is chosen |
| AtMost.TernaryMeaning | gecode/cpltset/constraints/atmost.cc:82-195 | the ternary diagram holds iff z = x ∩ y on y's bits, z has at most c elements, and the chosen lex order holds |
| AtMost.TernaryBoundsIntersection | gecode/cpltset/constraints/atmost.cc:90-106 | with equal widths the ternary diagram implies that at most c bit positions are on in both x and y, and with z linked to x ∩ y it is equivalent to that bound |
| AtMost.AtmostTernaryPost | gecode/cpltset/constraints/atmost.cc:82-195 | nothing happens on a failed space; otherwise the ternary diagram over [x, y, z] is posted |
| AtMost.AtmostOnePred | gecode/cpltset/constraints/atmost.cc:67-78 | the atmostOne diagram: `cardcheck` with bounds c and c on every view, and `extcardcheck` with bounds 0 and 1 on every pair i < j |
| AtMost.BuildAtmostOne | gecode/cpltset/constraints/atmost.cc:67-78 | the loops build the same diagram as the specification, using n(n-1)/2 pairwise conjuncts |
| AtMost.CardAllMeaning | gecode/cpltset/constraints/atmost.cc:68-72 | the first k cardinality conjuncts hold iff those k views have exactly c elements |
| AtMost.RowMeaning | gecode/cpltset/constraints/atmost.cc:75-77 | row i holds iff view i has at most one bit position on in common with each later view up to j |
| AtMost.RowsMeaning | gecode/cpltset/constraints/atmost.cc:74-78 | the first i rows hold iff every pair starting before i has at most one common bit position on |
| AtMost.AtmostOneMeaning | gecode/cpltset/constraints/atmost.cc:46-80 | the diagram holds iff every view has exactly c bits on and every two views have at most one common bit position on |
| AtMost.AtmostOneValues | gecode/cpltset/constraints/atmost.cc:46-80 | for views over one universe, the diagram holds iff every set has exactly c elements and every two sets have at most one element in common |
| AtMost.AtmostOnePost | gecode/cpltset/constraints/atmost.cc:46-80 | nothing happens on a failed space; otherwise the pairwise diagram over all views is posted |
| AtMost.ExactlyAction | gecode/cpltset/constraints/atmost.cc:354-400 | the branches: nothing when glb ∩ is has one value; failure when it has several, or when glb ∩ is and unknown ∩ is are both empty; inclusion of the one value of unknown ∩ is; otherwise a cardinality-c diagram over unknown ∩ is |
| AtMost.TheElement | gecode/cpltset/constraints/atmost.cc:381-386 | the value taken from a one-element set is its element |
| AtMost.Exactly | gecode/cpltset/constraints/atmost.cc:348-401 | nothing happens on a failed space; otherwise the space goes through the branch `ExactlyAction` selects |
| AtMost.ExactlyPostMeaning | gecode/cpltset/constraints/atmost.cc:390-400 | on the posting path, an assignment respecting x's domain satisfies the diagram iff x holds exactly c values of `is` |
| AtMost.GlbShortcutLeavesUnknownOpen | gecode/cpltset/constraints/atmost.cc:354-370 | when glb ∩ is has one value, nothing is posted for any c, though some assignment respecting the domain gives x two or more values of `is` |
| AtMost.AtmostSetPred | gecode/cpltset/constraints/atmost.cc:413-413 | the at-most diagram: `cardConst` over the values of `is` with bounds 0 and c |
| AtMost.AtmostSetMeaning | gecode/cpltset/constraints/atmost.cc:409-413 | the diagram holds iff x holds at most c values of `is` |
| AtMost.AtmostSet | gecode/cpltset/constraints/atmost.cc:403-417 | nothing happens on a failed space; otherwise the at-most-c diagram over `is` is posted |
| AtMost.Atmost | gecode/cpltset/constraints/atmost.cc:419-422 | posts the binary diagram with no lex conjunct and no cardinality |
| AtMost.AtmostLex | gecode/cpltset/constraints/atmost.cc:424-428 | posts the binary diagram with the given lex relation and no cardinality |
| AtMost.AtmostLexCard | gecode/cpltset/constraints/atmost.cc:430-434 | posts the binary diagram with the given lex relation and cardinality d |
| AtMost.AtmostCard | gecode/cpltset/constraints/atmost.cc:436-439 | posts the binary diagram with no lex conjunct and cardinality d |
| AtMost.AtmostTernary | gecode/cpltset/constraints/atmost.cc:441-444 | posts the ternary diagram with no lex conjunct |
| AtMost.AtmostOne | gecode/cpltset/constraints/atmost.cc:446-449 | posts the atmostOne diagram over all views |

## Left out

- The byte layout of memory, `sizeof(T)` as a machine quantity, alignment, pointer tagging of `hi` and placement new. Slots and abstract units stand for them.
- The bodies of the scratch area's `alloc`, `heap_alloc` and `heap_free` are not part of this model. They are modelled by their effect: a cursor, a fresh recorded block, and the release of every recorded block. That the cursor moves downwards is assumed, as region.hpp does not say; `OutOfOrderDestruction`'s reissue of the very same address depends on it, though memory would overlap with an upward cursor too.
- Heap exhaustion is a fatal abort in the library and is not modelled.
- The growth policy of the `HeapInfo` list (its `size` field and reallocation) is not modelled. The record is a sequence.
- The disabled copy constructor, assignment and `operator new` of `Region` (region.hpp:138-145) have no behaviour to model.
- Kernel.Region.Alloc, Kernel.Region.Realloc: the 32-bit products `sizeof(T)*n` and `sizeof(T)*m` are taken as exact, because overflow there is outside the region's own logic.
- Kernel.Region.Realloc: requires the n old objects to be live, which copy construction needs. It destroys n - m objects on the shrinking path, the corrected count (see Findings).
- Decision-diagram internals (nodes, sharing, BuDDy operations) are not modelled. Diagrams are modelled by their denotation.
- The bodies of `cardcheck`, `extcardcheck`, `cardConst` and the lex builders belong to other files of the library. They are modelled by their documented meaning.
- The propagators (`UnaryCpltSetPropagator`, `BinaryCpltSetPropagator`, `NaryCpltSetPropagator`) and their propagation are not modelled. Whether a post succeeds is the parameter `accepted`.
- The range iterators of `exactly` are modelled as sets. Their width checks become set sizes, and the appended first range rebuilds the same set.
- The unused min/max/width scan at atmost.cc:52-65 computes nothing that is used. Its read of `x[0]` on an empty array is not modelled either.
- The views and variables of the library (`CpltSetView`, `CpltSetVar`, `ViewArray`) are modelled only through offset, width, minimum, lower bound and undecided values.
- AtMost.BinaryPredMeaning, AtMost.AtmostOneMeaning, AtMost.TernaryBoundsIntersection: `extcardcheck` lines the bits of x and y up by position over x's width. For views over different universes (different minimum or width) the bound is on common positions, not on common values. The value-level statements (`BinaryPredValues`, `AtmostOneValues`) therefore require one universe.
- AtMost.LexConjunctMeaning: `xtab - 1` is unsigned in the source and wraps for a width-0 view. The model reads it as -1, an empty comparison.
- The parallel portfolio search (gecode/search/pbs.cpp) and the search-tree canvas (gecode/gist/treecanvas.hh) are not part of this model. They are engine selection, GUI and threads.

## Findings

| source | as written | input that shows it | evidently intended | confidence | as-written member | corrected member |
|---|---|---|---|---|---|---|
| gecode/kernel/region.hpp:210 | the shrinking branch of `realloc` destroys `m-n` objects from `b+m`, on unsigned operands | n = 3, m = 1: the count is 4294967294 instead of 2, reaching far past the block's 3 objects | destroy the n - m objects in [m, n) | not executed | Kernel.ShrinkCountWraps | Kernel.Region.Realloc |
