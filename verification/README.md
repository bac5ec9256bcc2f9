# Rope — a verified model

This project models `ComponentRope`, a rope: a binary tree that stores a mutable
string as leaf chunks under internal nodes, each node caching the length of the
text below it. The model covers construction, the self-adjustment rule (split a
leaf over 1000 units at its midpoint, collapse an internal node under 500 units
into a leaf), the recursive `insert` and `remove` splices with their panics,
`rebuild` and `rebalance`, the forgiving queries `substring`, `substr`,
`char_at` and `char_code_at`, and the `Display` text as the abstraction function
`Flatten`.

The rope is an immutable datatype `Rope = Leaf(text, length) | Node(left, right,
length)`; every mutation is a pure function from the old rope to the new one.
The cached `length` is kept as data, and `Valid` states that at every node it
equals the length of the node's flattened text. Every operation is specified
against `Flatten`: insert and remove are splices, rebuild, rebalance and adjust
leave the text unchanged, and the queries are slices. `WellSized` (every leaf at
most 1000 units, every internal node at least 500) and `Balanced` (no sibling
sizes in a ratio above 1.2) are the structural invariants.

Panics are modelled two ways. The recursive `Insert` and `Remove` take the
panic checks as preconditions; their recursive calls prove that the checks in
the children never fire. `TryInsert` and `TryRemove` return a `Result` that
carries the panic reason, so the fatal path is part of the model. `Substring`
returns a `Result` as well, because an inverted range panics at the leaf slice.

Modules: `Results` (option, panic reasons, result), `RopeCore` (node, `Flatten`,
invariants, `New`, `Adjust`), `RopeEdit` (insert, remove), `RopeBalance`
(rebuild, rebalance, depth bound), `RopeQuery` (substring and friends),
`RopeScenarios` (concrete uses).

Points where the code behaves differently from what a reader might expect; the
model follows the code:
- `remove` visits the left child whenever the clamped start lies inside it, and
  the right child whenever the clamped end is past its beginning
  (src/component_rope.rs:100-108, commented only as "if necessary"). A visited
  child's clamped range can therefore be empty. On a well-sized rope removing an
  empty range returns the very same tree (`RemoveEmptyIsIdentity`), so callers
  cannot observe these visits; `RemoveKeepsUntouchedChild` states which children
  are never visited.
- `substring` has a failure path although its doc comment
  (src/component_rope.rs:218-224) lists no panics. An inverted clamped range
  (start after end) panics at a leaf slice. `Substring` proves this happens
  exactly when the clamped start exceeds the clamped end.
- `substr` with a negative length aborts unless the resolved start is 0, although
  its doc comment (src/component_rope.rs:279-284) has no "Panics" section, unlike
  those of `remove`, `insert` and `char_code_at` (see Findings).

## Model

| member | source | states |
|---|---|---|
| RopeCore.Flatten | src/component_rope.rs:328-345 | the text a rope stands for: its leaves, left to right |
| RopeCore.New | src/component_rope.rs:17-31 | the new rope flattens to the given text, caches its length, is valid, well-sized and balanced, and is an internal node exactly when the text is over 1000 units |
| RopeCore.Adjust | src/component_rope.rs:33-50 | adjusting keeps the text and cached length; a leaf becomes a node exactly when over 1000 units, split at length/2; an internal node becomes a leaf exactly when under 500 units; afterwards a leaf is at most 1000 and a node at least 500 units; well-sized children give a well-sized result |
| RopeCore.HalvesBalanced | src/component_rope.rs:36-40 | the two halves of a split leaf are within the 1.2 rebalance ratio |
| RopeCore.NodeLengthIsSum | src/component_rope.rs:5-10 | in a valid rope an internal node's cached length is the sum of its children's, the length the mutations recompute |
| RopeCore.Reattach | src/component_rope.rs:110-114 | recomputing a node's length from its children and adjusting keeps the children's concatenated text and the invariants, and keeps the node when it has at least 500 units and makes it a leaf otherwise |
| RopeEdit.Insert | src/component_rope.rs:127-167 | for a position within the length, the text becomes old[..p] + t + old[p..], the length grows by len(t), validity and well-sizedness are kept, a result under 500 units is a leaf, and a position at or past the left child's length goes to the right child, leaving the left one as it was |
| RopeEdit.TryInsert | src/component_rope.rs:127-130 | insert aborts with the position panic exactly when the position is past the end, and otherwise splices the text in |
| RopeEdit.Remove | src/component_rope.rs:63-115 | for start <= end <= length, the text becomes old[..start] + old[end..], the length shrinks by end - start, validity and well-sizedness are kept, and a result under 500 units is a leaf |
| RopeEdit.RemoveAcross | src/component_rope.rs:82-111 | on an internal node, removing the clamped per-child ranges removes exactly [start, end) from the concatenated text |
| RopeEdit.TryRemove | src/component_rope.rs:63-73 | remove aborts exactly when not start <= end <= length, with the start, end or order panic in the order the source checks them, and otherwise removes the range |
| RopeEdit.RemoveKeepsUntouchedChild | src/component_rope.rs:100-108 | unless the node collapses, the left child is kept unchanged when the clamped start is not inside it and the right child when the clamped end is at its beginning, the two cases in which remove does not recurse |
| RopeEdit.RemoveUndoesInsert | src/component_rope.rs:63-167 | removing [p, p + len(t)) after inserting t at p gives back the original text |
| RopeEdit.RemoveEmptyIsIdentity | src/component_rope.rs:75-114 | removing an empty range from a well-sized rope returns the very same tree |
| RopeBalance.Rebuild | src/component_rope.rs:170-187 | rebuild leaves a leaf alone and turns an internal node into the rope a fresh construction of its text gives, keeping text and length |
| RopeBalance.Rebalance | src/component_rope.rs:190-216 | rebalancing keeps the text, length, validity and well-sizedness, and afterwards no internal node has children in a ratio above 1.2 |
| RopeBalance.RebalanceBalancedIsIdentity | src/component_rope.rs:190-216 | rebalancing an already balanced rope changes nothing |
| RopeBalance.RebalanceIdempotent | src/component_rope.rs:190-216 | rebalancing twice gives the same rope as rebalancing once |
| RopeBalance.BalancedDepthBound | src/component_rope.rs:201-213 | a balanced well-sized rope, which is what rebalancing a well-sized rope gives, is a leaf or, at depth d, holds at least 500 * (11/6)^(d-1) units, so its depth is logarithmic in its length |
| RopeQuery.Substring | src/component_rope.rs:225-277 | with both bounds clamped (a missing end meaning the length), the result is the flattened text over [start, end) when start <= end, and the inverted-slice panic otherwise |
| RopeQuery.SubstringPieces | src/component_rope.rs:257-274 | a range over a concatenation is the concatenation of its clamped per-child pieces, and an inverted range leaves an inverted piece on one side |
| RopeQuery.Substr | src/component_rope.rs:285-302 | a negative start resolves to max(length + start, 0); no length means to the end; a non-negative length n gives the slice up to start + n clamped; a negative length gives the empty text when the resolved start is 0 and the inverted-slice panic otherwise |
| RopeQuery.SubstrIntended | src/component_rope.rs:290-298 | with a negative length read as zero width, substr never aborts and gives the empty text for a negative length, agreeing with substr elsewhere |
| RopeQuery.SubstrNegativeLengthAborts | src/component_rope.rs:292-301 | substr(3, -1) on a ten-unit rope aborts as written, while the intended reading gives the empty text |
| RopeQuery.CharAt | src/component_rope.rs:309-311 | the unit at a position inside the rope as a one-unit text, and the empty text for any other position |
| RopeQuery.CharCodeAt | src/component_rope.rs:322-325 | succeeds exactly for positions inside the rope, giving that unit's value, and otherwise aborts with the invalid-position panic |
| RopeScenarios.HelloWorld | src/component_rope.rs:63-325 | on "hello world": inserting "," at 5 and removing it again, char_at(0), char_code_at(0) = 104, and the insert and remove panics |
| RopeScenarios.SplitThreshold | src/component_rope.rs:33-42 | 1500 units construct an internal node, 400 units a leaf |
| RopeScenarios.JoinThreshold | src/component_rope.rs:43-49 | removing 900 units from a freshly split 1200-unit rope through remove leaves one 300-unit leaf |
| RopeScenarios.ForgivingBounds | src/component_rope.rs:225-302 | substring(-5, 3) equals substring(0, 3), substring(4, 1000) equals substring(4, 10), and substr(-3) is the last three units |

## Left out

- Units: a text unit is modelled as one `char`, standing for one byte of the Rust `String`. The panics of `split_at` and slicing at a non-character boundary are not modelled.
- RopeQuery.CharCodeAt: returns the numeric value of the unit itself. It does not decode a multi-byte UTF-8 character.
- Rebalance ratio: the `f64` test `l / r > 1.2 || r / l > 1.2` is modelled as the exact `5*l > 6*r || 5*r > 6*l`. One empty child against a non-empty one is unbalanced (an infinite quotient), and two empty children are not (NaN compares false). Rounding of quotients within one ulp of 1.2 is not modelled.
- Integer widths: `usize` and `isize` are unbounded integers. The overflow of `position + 1` and `start + len` is not modelled.
- The `expect` panics for an internal node without a child: the two-case datatype makes such nodes unrepresentable.
- Ownership and output: `Box`, in-place mutation, `fmt::Formatter` and recursion depth are not modelled. Mutations return a new rope, and `Display` is the pure `Flatten`.
- Validity: every operation requires `Valid`, the invariant the public operations maintain. The source never checks it.

## Findings

| source | as written | input that shows it | evidently intended | confidence | as-written member | corrected member |
|---|---|---|---|---|---|---|
| src/component_rope.rs:292-301 | a negative `length` sets the end to 0, so `substring` is called with an inverted range and panics at the leaf slice | `substr(3, Some(-1))` on a rope of "0123456789" | a negative length is a zero-width request that gives the empty text: the doc comment at src/component_rope.rs:279-284 lists no panic for substr | medium, not executed | RopeQuery.SubstrNegativeLengthAborts | RopeQuery.SubstrIntended |
