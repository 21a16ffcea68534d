# ttl26 core, modelled in Dafny

ttl26 is a C++26 tensor-expression library. A tensor is anything with
`extents` and an `evaluate`: a scalar, a nested range, an mdspan, or a
type that declares `tensor_traits`. Index strings label tensor axes:
`A(i, j)` binds A to the label `"ij"`. A letter that occurs twice is
contracted (summed over), a `'*'` stands for an axis fixed to an integer,
and the letters that occur once are the free (outer) indices. The labelled
tensors make expression trees: `bind`, `sum` (`+`, `-`), `product` (`*`)
and the unary `-`/`+`. Assignment (`=`, `<<`, `+=`, `-=`, `*=`) writes a
tree into a tensor by a nest of loops over its extents.

The model has these parts:

- `cstring.dfy` (`CString`): NUL-terminated fixed-capacity buffers. It
  covers `size`, `==`, `_strcpy`, construction and `operator+`. The
  methods work on arrays and are proved against `Text`, the string a
  buffer denotes.
- `index_string.dfy` (`IndexString`): the header's index strings. It covers
  `count`, `outer`, `contracted`, `projected`, `inner`, `all`, `rank`,
  `index_of`, `find_offsets`, `is_subset_of`, `is_permutation` and
  `index_map`. Each one is tied to a characterisation by counts and
  positions.
- `istring.dfy` (`IString`): the module draft of the same strings. Its
  loops (`index_of_1_nth`, `index_of(c, out)`, `index_of<M>`, both
  `index_of_2`, `_contracted`, `imap`) are proved equal to the header's
  functions.
- `index.dfy` (`Index`): `index<str>`, a label carrying one slot per
  character. It covers `operator+`, `projection_map` and the integral
  constructor.
- `extents.dfy` (`Extents`): `std::extents` as static and runtime sizes per
  axis, with `concat_extents`, `prepend_extent`, `select_extents`,
  `compatible_extents` and `merge_extents`.
- `containers.dfy` (`Containers`): the module's `extents`, `evaluate` and
  `rank` over scalars, nested ranges and trait or member types. It also
  covers writing through `evaluate`.
- `dispatch.dfy` (`Dispatch`): the header's customisation-point dispatch
  for `extents` and `evaluate`, with `evaluate_type`, `scalar_type` and
  `accumulator_type`.
- `tree.dfy` (`Tree`): the expression nodes. It covers their validity
  conditions, extents, `_check_bounds`, `_check_contracted_extents` and
  evaluation. `Eval` is the value function and `Evaluate`/`EvaluateDeep`
  are the accumulating loops.
- `binding.dfy` (`Binding`): `bind(a, ids...)`, the integer overloads,
  `node::operator()`, `autobind` and the mixed tensor/expression
  operators.
- `scenarios.dfy` (`Scenarios`): the library's worked expressions. They
  are the trace, the dot product, the matrix-vector product, the outer
  product, a scaled matrix-vector product plus a vector (a scalar operand)
  and a sum with a transpose.
- `assign.dfy` (`Assignment`) and `assign_examples.dfy` (`AssignExamples`):
  `execution_traits::assign` as a loop nest writing row-major storage, and
  the compound assignments.
- `wrappers.dfy` (`Wrappers`): `Option`.

A tensor's elements are modelled as a function from index tuples to `int`.
Sizes and indices are unbounded naturals.

## Model

| member | source | states |
|---|---|---|
| CString.Size | modules/index/cstring.cpp:70-72 | `size()` is the position of the first NUL: no NUL before it |
| CString.StrEqualIsTextEquality | modules/cstring.cpp:27-31 | `==` holds exactly when the two denoted strings are equal, whatever follows the NULs |
| CString.StrCpy | modules/index/cstring.cpp:138-145 | the text of `src` lands at `at` in `dst`, and the returned end is just after it; the rest of `dst` is unchanged |
| CString.Empty | modules/cstring.cpp:19-21 | a default string is all NUL and denotes the empty string |
| CString.FromLiteral | modules/cstring.cpp:22-25 | a string built from a literal has its capacity and denotes the same text |
| CString.Concat | modules/cstring.cpp:53-60 | `a + b` has capacity N + M - 1 and denotes text(a) followed by text(b) |
| IndexString.CountTwoPositions | include/ttl/index_string.hpp:204-207 | two distinct positions with the same character make its count at least two |
| IndexString.CountIsMultiplicity | include/ttl/index_string.hpp:204-207 | `count(c)` is the number of occurrences of c: its multiplicity among the label's characters |
| IndexString.OuterCount | include/ttl/index_string.hpp:123-128 | `outer()` holds each character of count one exactly once, and nothing else |
| IndexString.ProjectedCount | include/ttl/index_string.hpp:139-144 | `projected()` holds every '*' of the label and nothing else |
| IndexString.RankIsOuterLength | include/ttl/index_string.hpp:66-71 | `rank()` is the length of `outer()` |
| IndexString.InnerIsOuterThenContracted | include/ttl/index_string.hpp:147-152 | `inner()` is `outer()` followed by `contracted()` |
| IndexString.ContractedCount | include/ttl/index_string.hpp:131-136 | `contracted()` holds each letter of count exactly two once, and nothing else |
| IndexString.AllCount | include/ttl/index_string.hpp:155-160 | how often each character occurs in `all()`, by class |
| IndexString.AllLength | include/ttl/index_string.hpp:155-160 | `all()` is as long as its outer, contracted and projected parts together |
| IndexString.DerivedAreDistinct | include/ttl/index_string.hpp:123-152 | `outer()`, `contracted()` and `inner()` never repeat a character and never hold '*' |
| IndexString.IndexOf | include/ttl/index_string.hpp:168-171 | `index_of(c)` is the first position of c, or the size when c is absent |
| IndexString.IndexOfPresent | include/ttl/index_string.hpp:168-171 | a character that occurs is found inside the string, at a position holding it |
| IndexString.IndexOfConcat | include/ttl/index_string.hpp:108-115 | in a concatenation, a character of the left part is found where it is found in that part |
| IndexString.NthIndexOf | include/ttl/index_string.hpp:190-201 | the n-th occurrence search returns a position inside the string, or the size |
| IndexString.NthIndexOfMeaning | include/ttl/index_string.hpp:190-201 | the n-th occurrence is found exactly when c occurs more than n times, with exactly n occurrences before it |
| IndexString.NthIndexOfAt | include/ttl/index_string.hpp:190-201 | a position holding c is found by asking for the occurrence whose number is the count of c before it |
| IndexString.PositionsMeaning | modules/index/cstring.cpp:98-108 | there is one position per occurrence, and entry n is the n-th occurrence |
| IndexString.PositionsAreNthIndexOf | modules/index/cstring.cpp:98-108 | the position list agrees with the n-th occurrence search |
| IndexString.PositionsIncrease | modules/index/cstring.cpp:98-108 | the positions strictly increase |
| IndexString.SubsetMeaning | include/ttl/index_string.hpp:210-216 | `is_subset_of` holds exactly when every character of a occurs in b |
| IndexString.SubsetByCount | include/ttl/index_string.hpp:210-216 | `is_subset_of` holds exactly when every character counted in a is counted in b |
| IndexString.PermutationMeaning | include/ttl/index_string.hpp:290-294 | `is_permutation` holds exactly when both strings use the same set of characters |
| IndexString.PermutationIgnoresMultiplicity | modules/index/istring.cpp:73-76 | "i" and "ii" count as permutations of each other |
| IndexString.PermutationIsEquivalence | include/ttl/index_string.hpp:290-294 | `is_permutation` is reflexive, symmetric and transitive |
| IndexString.LabelWithinAll | include/ttl/index_string.hpp:155-160 | a label is a subset of its `all()` exactly when no letter occurs three times or more |
| IndexString.DerivedAreSubsets | include/ttl/index_string.hpp:123-160 | the derived strings use only characters of the label |
| IndexString.ContractedInFirstOccurrenceOrder | include/ttl/index_string.hpp:266-271 | `contracted()` lists its letters in the order of their first occurrence |
| IndexString.OffsetsMeaning | include/ttl/index_string.hpp:224-237 | for a letter occurring twice, the offsets are its two positions in order, and it occurs nowhere else |
| IndexString.FindOffsets | include/ttl/index_string.hpp:224-237 | the counting loop of `find_offsets` returns the first and second positions of c |
| IndexString.IndexOfCursor | include/ttl/index_string.hpp:190-201 | `index_of(c, p)` returns the first c for a letter, and the p-th star for '*' with the cursor advanced |
| IndexString.IndexMap | include/ttl/index_string.hpp:305-320 | one entry per character of `to` |
| IndexString.ComputeIndexMap | include/ttl/index_string.hpp:305-320 | the cursor loop of `index_map` computes the index map |
| IndexString.IndexMapSound | include/ttl/index_string.hpp:305-320 | under the corrected guard every entry is a position in `from` holding the same character, and stars map in order |
| IndexString.IndexMapSubsetGuardAdmitsOverflow | include/ttl/index_string.hpp:307 | the subset test admits to = "**", from = "*", whose entry 1 equals the size of `from` |
| IndexString.IndexMapIdentity | modules/index/imap.cpp:46-54 | a label without repeated letters maps onto itself by the identity |
| IndexString.ContractedMembers | include/ttl/index_string.hpp:131-136 | a character is in `contracted()` exactly when it is contracted |
| IndexString.DerivedGuards | include/ttl/tree/bind.hpp:19-27 | the index maps from a label to its `outer()` and `inner()` meet the guard |
| IndexString.IndexOfDistinct | include/ttl/index_string.hpp:168-171 | in a label without repeats, position i is where its character is found |
| IndexString.AllStarPosition | include/ttl/index_string.hpp:155-160 | the n-th '*' of `all()` sits n places after `inner()` |
| IndexString.AllLetterPosition | include/ttl/index_string.hpp:155-160 | a letter is found in `all()` where it is found in `inner()` |
| IndexString.PlainLabel | include/ttl/index_string.hpp:123-160 | a label of distinct letters is its own `outer()`, `inner()` and `all()` |
| IndexString.StarLabel | include/ttl/index_string.hpp:139-160 | a label of stars only has empty `outer()` and `inner()`, and is its own `all()` |
| IString.SizeIsIndexOfNul | modules/index/cstring.cpp:70-72 | the draft's `size()` is `index_of_1('\0')` |
| IString.IndexOf1Nth | modules/index/cstring.cpp:123-129 | the `find_if` with a counter returns the n-th occurrence, inside the string exactly when c occurs more than n times |
| IString.WritePositions | modules/index/cstring.cpp:98-108 | the loop writes exactly the positions of c from `at` on, and leaves the rest of the output untouched |
| IString.IndexOfSized | modules/index/cstring.cpp:110-117 | the first count(c) entries of the M-entry array are the positions of c |
| IString.IndexOf2 | modules/index/cstring.cpp:131-135 | for any character occurring exactly twice, '*' included, it returns its two positions in order, and c occurs nowhere else |
| IString.IndexOf2LegacyFindsOffsets | modules/cstring.cpp:91-106 | for a letter occurring at least twice, the older search returns its first and second occurrences, which for a contracted letter are its two offsets |
| IString.IndexOf2LegacySingle | modules/cstring.cpp:91-106 | for a letter occurring once, the second result is the size |
| IString.AppendContracted | modules/index/istring.cpp:89-103 | the draft loop appends exactly `contracted()` to the existing output |
| IString.DraftInner | modules/index/istring.cpp:41-46 | the draft's `inner()` equals the header's |
| IString.DraftAll | modules/index/istring.cpp:48-53 | the draft's `all()` equals the header's |
| IString.DraftIndexMap | modules/index/imap.cpp:16-39 | the draft `imap` loop computes the header's index map |
| IString.DraftIndexMapExample | modules/index/imap.cpp:46-54 | `imap<"i*", "i*">` is [0, 1] |
| Index.Default | include/ttl/index.hpp:18 | a default index has one zero slot per label character |
| Index.Projection | include/ttl/index.hpp:20-25 | `index(p)` is labelled "*" and carries p |
| Index.EqualIsIdentity | include/ttl/index.hpp:27-30 | `==` on indices with the same label is equality of their slots |
| Index.Plus | include/ttl/index.hpp:38-44 | `a + b` is labelled a.str + b.str, with a's slots followed by b's |
| Index.PlusAssociative | modules/index/index.cpp:63-70 | index concatenation is associative |
| Index.ProjectionMap | include/ttl/index.hpp:46-60 | `projection_map()` is the list of positions of the '*' characters |
| Index.DraftProjectionMap | modules/index/index.cpp:55-57 | the draft's `projection_map()` is the same list |
| Index.ProjectionsOfPlus | modules/index/index.cpp:63-70 | the stars of a + b are those of a, then those of b shifted by a's length |
| Index.ToIndex | modules/index/index.cpp:80-87 | an integer becomes a "*" index carrying it, and an index stays as it is |
| Index.ConcatenationExamples | modules/index/index.cpp:110-126 | the concatenations of the tests: labels, slots and the projection map |
| Extents.Make | include/ttl/extents.hpp:65-70 | a std::extents value has the given static and runtime sizes |
| Extents.Concat | include/ttl/extents.hpp:65-70 | `concat_extents` lists a's axes, then b's |
| Extents.Prepend | include/ttl/extents.hpp:72-75 | `prepend_extent` adds a leading axis with the given sizes in front of b |
| Extents.Select | include/ttl/extents.hpp:77-88 | axis k of `select_extents` is axis pos[k] of t |
| Extents.ConcatWellFormed | modules/tensor/extents.cpp:115-125 | concatenating well-formed extents gives well-formed extents |
| Extents.SelectWellFormed | modules/tensor/extents.cpp:128-134 | selecting from well-formed extents gives well-formed extents |
| Extents.CompatibleFromMeaning | include/ttl/extents.hpp:90-103 | the fold from axis k holds exactly when every later runtime size agrees |
| Extents.CompatibleMeaning | modules/tensor/extents.cpp:147-163 | `compatible_extents` holds exactly when the runtime sizes are equal |
| Extents.CompatibleSymmetric | modules/tensor/extents.cpp:147-163 | `compatible_extents` is symmetric |
| Extents.MergeMeaning | modules/tensor/extents.cpp:165-186 | a merged axis has the smaller static size (static wins over dynamic) and the common runtime size |
| Extents.MergeCommutes | modules/tensor/extents.cpp:165-186 | merging compatible extents is symmetric |
| Extents.MergeKeepsCompatibility | include/ttl/extents.hpp:105-111 | the merge of well-formed compatible extents is well formed and compatible with both inputs |
| Containers.LeadingStatic | modules/tensor/extents.cpp:51-61 | C arrays, std::array and fixed spans have their length as static extent; other ranges are dynamic |
| Containers.ObjExtents | modules/tensor/extents.cpp:79-100 | a scalar has no axes, and a range has one more axis than its first element, with the range's length |
| Containers.Update | modules/tensor/evaluate.cpp:40-52 | writing through `evaluate(t, i...)` keeps the kind of the object |
| Containers.UpdateKeepsShape | modules/tensor/evaluate.cpp:186-199 | a write changes no extents, and every index stays evaluable |
| Containers.UpdateReadBack | modules/tensor/evaluate.cpp:217-225 | reading the written index gives the written value |
| Containers.UpdateFrame | modules/tensor/evaluate.cpp:217-225 | a write through one index leaves every other index's element unchanged |
| Containers.RangeStepsConsumeIndices | modules/tensor/evaluate.cpp:40-43 | each range level consumes exactly one index, then the leftover object answers the rest |
| Containers.Leftover | modules/tensor/evaluate.cpp:24-52 | the object left after the range levels is a scalar, trait or subscript type |
| Containers.Nested | modules/tensor/evaluate.cpp:201-205 | a nested range has the outermost length and kind given |
| Containers.KindAxes | modules/tensor/extents.cpp:74-76 | one axis per level, static exactly for fixed-length kinds |
| Containers.NestedExtents | modules/tensor/extents.cpp:91-94 | a nested range's extents are its lengths, outermost first, and are well formed |
| Containers.NestedEval | modules/tensor/evaluate.cpp:201-215 | `evaluate` of a nested range at in-bounds indices is the element described there |
| Containers.VectorOfArrays | modules/tensor/extents.cpp:348-353 | a vector of three std::array<int, 3> has a dynamic axis of 3, then a static axis of 3 |
| Containers.NestedSteps | modules/tensor/evaluate.cpp:40-43 | a nested range takes one range step per index |
| Containers.CArrayWrite | modules/tensor/evaluate.cpp:217-225 | `evaluate(c, 1, 0) = 7` on int[2][2] stores 7 there, and c[0][0] and c[1][1] keep their values |
| Containers.Unqualified | modules/tensor/rank.cpp:30 | remove_cvref leaves an unqualified type |
| Containers.QualifiersKeepRank | modules/tensor/rank.cpp:54-76 | const, volatile and reference qualifiers never change `rank` |
| Containers.NestedTyRank | modules/tensor/rank.cpp:37-39 | a range of ranges of int, depth levels deep, has rank depth |
| Containers.RankExamples | modules/tensor/rank.cpp:112-115 | mdspan<array<int, 3>, extents<1, dyn, 1>> has rank 4, and int const(&)[1][1] has rank 2 |
| Containers.RankIsExtentsLength | modules/tensor/rank.cpp:28-47 | for every object of a type, `rank` is the number of axes `extents` returns plus the element axes of any mdspan in the type, which `extents` does not list; the two agree exactly when there are none |
| Containers.MdspanOfArrays | modules/tensor/rank.cpp:40-41 | for mdspan<array<int, 3>, extents<1, dyn, 1>>, `rank` is 4 while `extents` of an object, from its `.extents()` member (modules/tensor/extents.cpp:96-99), has 3 axes and `evaluate` takes exactly 3 indices |
| Dispatch.ExtentsOf | include/ttl/extents.hpp:24-43 | `extents` uses the trait when there is one, and the member function otherwise |
| Dispatch.RankOf | include/ttl/extents.hpp:49-50 | `rank` is the number of axes of `extents(t)` |
| Dispatch.ExtentOf | include/ttl/extents.hpp:52-60 | `extent(t, i)` is the runtime size of axis i |
| Dispatch.Choose | include/ttl/evaluate.hpp:29-36 | the chosen branch accepts n indices, and there is none exactly when no accessor accepts them |
| Dispatch.ChoosePriority | include/ttl/evaluate.hpp:29-36 | trait beats member beats subscript: each branch is taken iff it accepts and no earlier one does |
| Dispatch.Evaluate | include/ttl/evaluate.hpp:39-58 | `evaluate` returns what an accepting accessor reads at the same indices |
| Dispatch.EvaluateUsesTrait | include/ttl/evaluate.hpp:39-44 | when the trait accepts the indices, `evaluate` is the trait's evaluate |
| Dispatch.EvaluateUsesSubscript | include/ttl/evaluate.hpp:53-58 | the subscript answers only when neither the trait nor a member accepts |
| Dispatch.EvaluateType | include/ttl/evaluate.hpp:61-64 | `evaluate_type` is the result type of an accessor that takes rank indices |
| Dispatch.ScalarType | include/ttl/evaluate.hpp:66-67 | `scalar_type` drops the reference and keeps const |
| Dispatch.AccumulatorType | include/ttl/evaluate.hpp:69-70 | `accumulator_type` is neither const nor a reference |
| Dispatch.MemberNeverChosenAsWritten | include/ttl/evaluate.hpp:19-22 | with the member test as written, the member branch is never taken |
| Dispatch.AsWrittenDiffers | include/ttl/evaluate.hpp:19-36 | the written and the corrected dispatch differ exactly when the member accepts and the trait does not |
| Dispatch.MemberOnlyType | include/ttl/evaluate.hpp:46-51 | a type with only a member evaluate(i) has no branch as written; corrected, it uses the member |
| Dispatch.ModuleScalarType | modules/tensor/evaluate.cpp:84-113 | the module's `scalar_type` prefers the trait's type, then the member type, then the unqualified evaluate type |
| Tree.Gather | include/ttl/tree/bind.hpp:94-101 | entry k of a permuted pack is entry m[k] |
| Tree.ContractedFoldMeaning | include/ttl/tree/node.hpp:59-70 | the fold holds exactly when every listed contracted letter's two axes agree |
| Tree.ContractedCheckMeaning | include/ttl/tree/node.hpp:51-71 | `_check_contracted_extents` holds exactly when every two axes with the same contracted letter agree |
| Tree.ContractedPairAgrees | include/ttl/tree/node.hpp:62-68 | two positions with the same contracted letter pass the check |
| Tree.CheckContractedExtents | modules/tree/expression.cpp:80-104 | the draft's static and dynamic loops compute the same check |
| Tree.SumSides | include/ttl/tree/sum.hpp:60-64 | the operands' extents in the sum's outer order: well formed, one axis per outer letter of A on each side |
| Tree.NodeExtents | include/ttl/tree/bind.hpp:59-62 | an expression has one axis per outer letter |
| Tree.Depth | include/ttl/tree/product.hpp:78-94 | a bind or a product collects `inner().size()` indices, at least its rank |
| Tree.InnerExtents | include/ttl/tree/product.hpp:136-140 | one axis per inner letter, with the outer axes first |
| Tree.Remap | include/ttl/tree/bind.hpp:94-110 | the operand's tuple has one index per label character, that is one per operand axis |
| Tree.Evaluate | include/ttl/tree/product.hpp:103-133 | the evaluation loop computes `Eval`, the value of the node |
| Tree.EvaluateDeep | include/ttl/tree/bind.hpp:115-132 | the accumulating `_evaluate` loop computes the full-depth sum |
| Tree.Realign | include/ttl/tree/sum.hpp:32-34 | a tuple read back in another order of the same letters has the right length |
| Tree.NodeOuterDistinct | include/ttl/tree/bind.hpp:54-57 | every expression's `outer()` lists distinct letters and no '*' |
| Tree.GatherIsRealign | include/ttl/tree/sum.hpp:32-34 | permuting by an index map between labels is reading back letter by letter |
| Tree.RemapMeaning | include/ttl/tree/bind.hpp:94-110 | the operand axis of a '*' receives the bound slot, and the axis of a letter receives the index of that letter |
| Tree.BindPlainLabel | modules/tree/bind.cpp:105-155 | binding distinct letters keeps the extents and reads the operand at the same indices |
| Tree.BindExtentsMeaning | include/ttl/tree/bind.hpp:59-62 | axis k of a bind is the operand's axis labelled by the k-th outer letter |
| Tree.ProductExtentsMeaning | include/ttl/tree/product.hpp:59-64 | axis k of a product is the concatenated axis labelled by the k-th outer letter |
| Tree.SumExtentsMeaning | include/ttl/tree/sum.hpp:60-64 | a sum has A's runtime sizes, and B's axis with the same letter has the same size |
| Tree.SumElement | include/ttl/tree/sum.hpp:66-80 | a sum reads A at the index and B realigned by letter, then combines the two values |
| Tree.SumReadsInBounds | include/ttl/tree/sum.hpp:41-48 | an in-bounds index of a sum gives in-bounds reads of A and of B |
| Tree.BindReadsInBounds | include/ttl/tree/bind.hpp:115-119 | inner indices within the inner extents read the operand in bounds on every lettered axis |
| Tree.BindFacts | include/ttl/tree/bind.hpp:19-34 | what a valid bind knows about its operand, label and inner extents |
| Tree.ProductElement | include/ttl/tree/product.hpp:78-94 | a product at full depth multiplies A and B, each read by letter from the inner tuple |
| Tree.ProductReadsInBounds | include/ttl/tree/product.hpp:39-44 | inner indices within the inner extents read A and B in bounds |
| Tree.InnerExtentOfLetter | include/ttl/tree/product.hpp:136-140 | the inner axis of a letter is the concatenated axis at the letter's first position |
| Tree.SecondOperandLetter | include/ttl/tree/product.hpp:136-140 | the first position of one of B's letters labels an axis of B's size |
| Tree.UnaryElement | include/ttl/tree/negate.hpp:25-38 | a unary node keeps its operand's labels, extents and bounds; `-` negates the element and `+` keeps it |
| Tree.UnaryRoundTrip | include/ttl/tree/negate.hpp:41-59 | `-(-a)` and `+a` have a's elements |
| Binding.FoldLeft | modules/tree/bind.cpp:30-36 | the left fold from the empty index carries the concatenated labels and slots |
| Binding.FoldRight | include/ttl/bind.hpp:23-35 | the right fold of `+` builds a valid index (its labels and slots are given by Binding.FoldsAgree) |
| Binding.FoldsAgree | modules/tree/bind.cpp:30-36 | the draft's left fold and the header's right fold build the same index |
| Binding.IntegralOffsets | modules/tree/expression.cpp:34-40 | each integer argument is a '*' whose slot holds that integer, at its own position |
| Binding.BindScalar | include/ttl/bind.hpp:11-21 | `bind(x)` of a scalar is a valid rank-0 expression whose element is x |
| Binding.BindArgs | include/ttl/bind.hpp:23-44 | `bind(a, ids...)` is labelled by the concatenated labels and carries the concatenated slots |
| Binding.Integers | include/ttl/bind.hpp:37-44 | integer arguments become "*" indices carrying the integers |
| Binding.BindIntegers | include/ttl/tree/node.hpp:24-30 | binding every axis to integers gives a valid rank-0 bind whose element is the node's element at those integers |
| Binding.Call | include/ttl/tree/node.hpp:24-30 | the integer overload forms only with no argument: `n()` needs a rank-0 node and is its one element |
| Binding.AutoBind | include/ttl/bind.hpp:56-60 | `autobind<ind>(a)` binds a to ind with every slot zero |
| Binding.TensorOp | include/ttl/bind.hpp:65-90 | `tensor op expression` is a sum of the autobound tensor and the expression |
| Binding.ExpressionOp | include/ttl/bind.hpp:73-98 | `expression op tensor` is a sum of the expression and the autobound tensor |
| Binding.AutoBindFacts | include/ttl/bind.hpp:56-60 | a tensor bound to an expression's outer label keeps its extents and elements |
| Binding.SameLabelSides | include/ttl/tree/sum.hpp:60-64 | with the same outer label on both sides, the sum's sides are the operands' own extents |
| Binding.MixedValid | include/ttl/bind.hpp:65-98 | the mixed operators exist exactly when the tensor's extents are compatible with the expression's |
| Binding.SameLabelElement | include/ttl/tree/sum.hpp:66-71 | with the same outer label, the sum combines the elements at the same index |
| Binding.TensorOpElement | include/ttl/bind.hpp:65-71 | element i of `tensor op expression` combines the tensor's element i with the expression's |
| Binding.ExpressionOpElement | include/ttl/bind.hpp:73-79 | element i of `expression op tensor` combines the expression's element i with the tensor's |
| Scenarios.SigmaIsSumRange | include/ttl/tree/product.hpp:103-133 | the accumulation over a contracted axis is a plain sum of the appended-index values |
| Scenarios.ContractionIsSum | include/ttl/tree/product.hpp:103-133 | an element of a bind or product with one contracted axis left is the plain sum of the values along that axis |
| Scenarios.BindShape | include/ttl/tree/bind.hpp:29-34 | rank, depth and inner extents of a bind whose label fits its operand |
| Scenarios.TraceChecks | include/ttl/tree/node.hpp:51-71 | the label "ii" on a square matrix passes the contracted-extents check |
| Scenarios.TraceIsDiagonalSum | tests/main.cpp:186-193 | `bind(m, i, i)` is a valid rank-0 expression whose element is the sum of the diagonal |
| Scenarios.TraceShape | tests/main.cpp:186-193 | the trace has rank 0 and depth 1 |
| Scenarios.TraceDiagonal | include/ttl/tree/bind.hpp:115-119 | at full depth the trace reads the matrix at (k, k) |
| Scenarios.VectorBind | tests/main.cpp:276-287 | a vector bound to one letter keeps its extents and elements |
| Scenarios.ProductShape | include/ttl/tree/product.hpp:22-44 | rank, depth and inner extents of a product whose labels fit |
| Scenarios.DotProduct | tests/main.cpp:284-287 | `x(i) * y(i)` is a rank-0 expression whose element is the dot product |
| Scenarios.MatrixVector | tests/main.cpp:295-299 | `A(i, j) * x(j)` is a rank-1 expression whose element i is row i of A times x |
| Scenarios.OuterProduct | tests/main.cpp:289-293 | `x(i) * y(j)` is a valid rank-2 expression, nothing summed, whose element (i, k) is x(i) times y(k) |
| Scenarios.ScalarTimes | include/ttl/tree/product.hpp:78-94 | a product with a scalar operand (rank 0, empty outer label) keeps the other operand's label and extents and scales each of its elements by the scalar |
| Scenarios.ScaledMatrix | tests/main.cpp:303 | `2 * A(i, j)` (any scalar in place of 2) is an expression labelled "ij" with A's extents whose element (i, k) is the scalar times A's |
| Scenarios.ScaledMatrixVectorPlus | tests/main.cpp:301-305 | `2 * A(i, j) * x(j) + y(i)` (any scalar in place of 2) is a valid rank-1 expression whose element i is the scalar times row i of A dotted with x, plus y(i) |
| Scenarios.SumRangeScale | tests/main.cpp:304-305 | a sum of terms each scaled by w is w times the unscaled sum, which puts the factor 2 outside the contraction as the test does |
| Scenarios.SumShape | include/ttl/tree/sum.hpp:30-48 | a sum of permuted labels with fitting extents is valid, with A's outer label |
| Scenarios.SumWithTranspose | tests/sum.cpp:61-80 | `V(i, j) + W(j, i)` is an r×c expression whose element (i, k) is V(i, k) + W(k, i) |
| Scenarios.TransposeValues | tests/sum.cpp:61-80 | in a sum of an "ij" and a "ji" operand, element (i, k) combines A at (i, k) with B at the swapped tuple (k, i) |
| Scenarios.TransposedBind | tests/sum.cpp:61-71 | a matrix bound "ji" is valid, with extents in its own order |
| Assignment.Offset | include/ttl/tree/execution_traits.hpp:34-66 | the row-major position of an in-bounds tuple is inside the storage |
| Assignment.OffsetInjective | include/ttl/tree/execution_traits.hpp:34-66 | distinct in-bounds tuples have distinct positions, so no element is written twice |
| Assignment.PermutedPositions | include/ttl/tree/execution_traits.hpp:26-32 | with permuted labels, every letter on one side has a position on the other |
| Assignment.SourceIndex | include/ttl/tree/execution_traits.hpp:39-54 | B is read at the permuted tuple, or at A's own tuple without a permutation |
| Assignment.SourceExtents | include/ttl/tree/execution_traits.hpp:26-32 | B's axes listed in A's order |
| Assignment.IndexMapGuardOfPermutation | include/ttl/tree/execution_traits.hpp:26-32 | a permutation of star-free labels meets the index-map guard |
| Assignment.CheckedReadsInBounds | include/ttl/tree/execution_traits.hpp:17-22 | under the corrected check every tuple of A reads B in bounds |
| Assignment.Block | include/ttl/tree/execution_traits.hpp:59-65 | the values written below a prefix: one per tuple extending it |
| Assignment.Blocks | include/ttl/tree/execution_traits.hpp:59-65 | the first n blocks along an axis, n block sizes long |
| Assignment.AssignFrom | include/ttl/tree/execution_traits.hpp:34-66 | the loop nest writes exactly the block below the prefix, and nothing before or after it changes |
| Assignment.AssignAxis | include/ttl/tree/execution_traits.hpp:59-65 | the loop over one axis of A writes that axis's blocks one after another from the given position; storage before and after them is unchanged |
| Assignment.Assign | include/ttl/tree/execution_traits.hpp:17-22 | after `assign(a, b)`, under the corrected extents check of the third finding, the storage holds B's element for every tuple of A, in row-major order |
| Assignment.AssignedElement | include/ttl/tree/assign.hpp:7-17 | A's element at every in-bounds tuple is the value B supplies for it |
| Assignment.PositionalCheckWithoutRemap | include/ttl/tree/execution_traits.hpp:17-22 | without a permutation the positional check is the corrected check |
| Assignment.Snapshot | include/ttl/tree/assign.hpp:19-29 | A's current contents as a tensor of A's extents |
| Assignment.Lhs | include/ttl/tree/assign.hpp:19-29 | the left-hand side as an operand: the tensor, or its bind with A's outer label, which `a = a + b` can assign only at rank 0 (include/ttl/tree/bind.hpp:36-41) |
| Assignment.CompoundAssign | include/ttl/tree/assign.hpp:19-29 | `a += b` and `a -= b` store `a op b`, computed from A's old contents, for a tensor left-hand side or a rank-0 bind |
| Assignment.CompoundElement | include/ttl/tree/assign.hpp:19-29 | after `a op= b` (a tensor, or a rank-0 bind), each element is the old element combined with B's value there |
| Assignment.ScalarAssign | include/ttl/tree/execution_traits.hpp:69-77 | the scalar specialisation writes the one element |
| Assignment.MulAssign | include/ttl/tree/assign.hpp:31-35 | `a *= b` stores the product of the old scalar and b |
| AssignExamples.ScalarJobs | include/ttl/tree/execution_traits.hpp:69-77 | rank-0 assignments and compound assignments pass the checks and need no permutation |
| AssignExamples.ScalarAssignment | tests/assign.cpp:24-36 | `n = b` for a rank-0 b stores b's element |
| AssignExamples.ScalarCompound | tests/assign.cpp:24-36 | `n op= b` combines the stored value with b's element |
| AssignExamples.UnitTraceIsTwo | tests/main.cpp:186-193 | the trace of the 2×2 identity is 2 |
| AssignExamples.ScalarSequence | tests/assign.cpp:24-36 | `=`, `+=` and `-=` of the identity's trace, then `*= 42`, leave 84 |
| AssignExamples.TransposeJob | include/ttl/tree/execution_traits.hpp:39-54 | a matrix bound "ij" assigned from one bound "ji" reads B at (y, x) for (x, y) |
| AssignExamples.PositionalCheckAdmitsOutOfBounds | include/ttl/tree/execution_traits.hpp:17-22 | 2×3 "ij" ← 2×3 "ji" passes the positional check, yet reads B at (2, 0), out of bounds |
| AssignExamples.PositionalCheckRejectsTranspose | include/ttl/tree/execution_traits.hpp:17-22 | 2×3 "ij" ← 3×2 "ji", an in-bounds transpose, fails the positional check |

## Left out

- Compile time against run time: `static_assert`s, concept constraints and overload resolution become preconditions, `Valid` predicates or `Option` results. A program that does not compile is a member whose precondition fails.
- The cases the source leaves undefined are preconditions:
  - `find_offsets` and `index_of_2` on a character that does not occur exactly twice;
  - `index_of<M>` with fewer than `count(c)` entries;
  - the older `index_of_2` on a character that does not occur;
  - the `extents` of an empty range.
- IndexString.IndexMap: it is stated under the corrected guard (at most as many stars in `to` as in `from`). The subset test alone is the first finding.
- Machine integers: sizes, indices and scalars are unbounded, so `size_t` wrap-around and signed overflow are not modelled. Floating-point scalars are not modelled either; elements are `int`.
- Containers.Update: writes go through one index at a time on a value. Aliasing between two views of the same storage (a span and its array, an mdspan over an array) is not modelled.
- Assignment.Assign: A's storage and B are independent. An assignment whose right-hand side reads A's own storage, other than the element-wise compound forms, is not modelled.
- Writes through a projection bind (`bind(m, i, 1)[k] = v`) are left out. Assignment writes flat row-major storage, and Containers.Update writes nested ranges.
- The static-extent fast path of `product`'s loop is left out. It computes the same sum as the dynamic loop.
- Containers.RankIsExtentsLength: for an mdspan whose element type has a rank, `rank` and `extents` disagree, and the model states the gap rather than correcting either side. `rank`'s static assertions fix the larger value (modules/tensor/rank.cpp:112-115), while `extents` and `evaluate` follow the mdspan's own axes, so which one is meant is not evident.
- Containers.MdspanOfArrays: the element an mdspan's subscript returns is modelled as a number. For an mdspan of ranges it is a range, which `evaluate` returns without reading further.
- mdspan layouts, `tspan`, `tensor` storage and `tensor_traits` specialisations are not part of this model. A trait type is an object with given extents and an element function.
- The deleted integral `operator()` of `expression` is left out; it is a type-level rejection.
- Binding.Call: only `n()` is modelled. With one or more integers, node.hpp's overload forwards `index<"*">` values to `operator[]`, which takes only integers, so it never forms; binding a node to integers is Binding.BindIntegers.
- The `operator<<` of assign.hpp is the same `assign` call and has no separate member.
- const and reference qualifiers are modelled as flags on result types and as a qualifier wrapper around types. Value categories and forwarding are not modelled.

## Findings

| source | as written | input that shows it | evidently intended | confidence | as-written member | corrected member |
|---|---|---|---|---|---|---|
| include/ttl/index_string.hpp:305-320 | `index_map` only requires `to.is_subset_of(from)` | `to = "**"`, `from = "*"`: entry 1 is 1, one past the end of `from` | `to` has no more stars than `from`, so every entry is a position of `from` | not executed | IndexString.IndexMapSubsetGuardAdmitsOverflow | IndexString.IndexMapSound |
| include/ttl/evaluate.hpp:19-22 | `_has_member_fn` repeats the trait test, so the member branch is never selected | a type with only a member `evaluate(i)`: `evaluate(t, 0)` finds no branch | `_has_member_fn` tests `t.evaluate(i...)` | not executed | Dispatch.MemberOnlyType | Dispatch.ChoosePriority |
| include/ttl/tree/execution_traits.hpp:17-32 | the assertion compares A's extents with B's position by position, while the loop nest reads B through the index map | A 2×3 bound "ij" from B 2×3 bound "ji": passes, then reads B at (2, 0) | compare A's extents with B's extents taken in A's axis order | not executed | AssignExamples.PositionalCheckAdmitsOutOfBounds | Assignment.CheckedReadsInBounds |

`is_permutation` is described as a permutation test. The code tests
that each label is a subset of the other, so "i" and "ii" count as
permutations (IndexString.PermutationIgnoresMultiplicity). The model follows
the code.
