# Variable elimination over boolean factors

This project models `var_elimination.py`. That file does exact inference in a Bayesian network whose variables are all boolean.

A **factor** is a table. It has an ordered scope of variable names, and rows that each pair a boolean assignment to the scope with a weight. The model keeps the table as a value: `Factor(scope, rows)` with `Row(vals, prob)`. Weights are Dafny `real`s.

The factor algebra is pure; each operation copies its input and returns a new table:

- `restrict` keeps the rows where a variable has a given value and drops that column.
- `sumout` drops a column and adds up the weights of the rows that then coincide. The groups come out sorted, false before true. When no column is left, it returns one scalar row holding the total.
- `multiply` has two cases:
  - when exactly one side is scalar, it scales the other side by the scalar's weight;
  - otherwise it does an inner join of the two tables on their common variables, and the weights multiply.
- `normalize` divides every weight by the total.

These become functions, in the modules `Restriction`, `Marginal`, `Product` and `Normalization`, over the shared data model in `Factors`.

`inference` is imperative. It keeps a working list of factors and changes it in place:

1. It restricts each evidence variable to true.
2. For each hidden variable, it pops every factor that mentions the variable, multiplies them, sums the variable out and appends the result.
3. Finally, it multiplies what is left and normalises.

In module `Elimination`, each loop of the source is a method over a `seq<Factor>` with loop invariants: `ApplyEvidence`, `Collect`, `MultiplyAll` and `Inference`. `EliminateVariable` has no loop of its own; it composes `Collect` and `MultiplyAll`. Each method is proved equal to a specification function: `EvidenceApplied`, `NotMentioning`/`Mentioning`, `FoldMultiply`, `EliminateStep` and `Infer`. Lemmas about those functions carry the properties of the algorithm.

Errors the source raises become `Err` results:

- a missing column (a pandas `KeyError`) gives `MissingVariable`;
- factors that share no variable (the explicit `raise`) give `NoSharedVariable`;
- a scalar table with no row facing a table with rows (an `IndexError` on `values[0]`) gives `EmptyScalar`;
- an empty factor list at the final `pop(0)` gives `NoFactors`;
- a zero total over a non-empty final product, where the code would produce NaN weights, gives `ZeroTotal`. A final product with no rows comes back as it is, as in the code, where dividing an empty column changes nothing.

Four behaviours of the code are easy to miss; the model follows the code:

- Two scalar factors cannot be multiplied. The exclusive-or at line 37 sends them to the join branch, and that branch raises because they share no variable.
- Multiplying by the scalar 1 gives the factor back only when the factor is not itself a scalar.
- An evidence variable that no factor mentions is skipped silently.
- A scalar factor may have no rows at all.

Module `Scenarios` reproduces three of the unit tests in `tests.py` as lemmas about concrete factors.

## Model

| member | source | states |
|---|---|---|
| Restriction.Restrict | var_elimination.py:6-11 | Succeeds exactly when the variable is in the scope; otherwise gives `MissingVariable`. The scope loses exactly that variable, and the other columns stay in order. The rows are exactly the input rows whose value for the variable equals the given value, in their original order and with their weights, each with that column removed. The result is well formed. |
| Restriction.RestrictSplitsMass | var_elimination.py:10-11 | Restricting a variable to true and to false splits the total weight of the factor between the two results. |
| Marginal.GroupSpec | var_elimination.py:24 | Grouping rows gives strictly ascending assignments, false before true, so no assignment repeats. The set of assignments equals that of the input. Each assignment's weight equals its weight in the input, and the total is kept. |
| Marginal.GroupRowsAreSums | var_elimination.py:24 | Each grouped row's weight is the sum of the weights of all input rows with that assignment. |
| Marginal.SumOut | var_elimination.py:14-24 | Succeeds exactly when the variable is in the scope; otherwise gives `MissingVariable`. The scope loses exactly that variable. The total weight is preserved. The rows are strictly sorted, false before true. With no variable left there is exactly one row. Otherwise there is one row per distinct projected assignment, carrying the summed weight of its group. |
| Product.JoinPairsSpec | var_elimination.py:50 | The join emits only pairs of rows with equal keys and emits every such pair. Pairs are grouped by key, in order of the key's first appearance on the left, with left rows outer and right rows inner. |
| Product.Join | var_elimination.py:46-54 | The joined scope is the left scope followed by the right-only variables, and the result is well formed. |
| Product.Multiply | var_elimination.py:27-54 | The only errors are `NoSharedVariable` and `EmptyScalar`. `NoSharedVariable` occurs exactly when both sides are scalar or both are non-scalar with no common variable. `EmptyScalar` occurs exactly when a scalar with no rows faces a side with rows. With one scalar side, the result keeps the other side's scope and row order, and each weight is multiplied by the scalar's first weight. Otherwise the scope is the left scope followed by the right-only variables. On success the result is well formed and its variables are the union of both scopes. |
| Product.MultiplyRows | var_elimination.py:46-54 | A join has one row per emitted pair, in emission order. Each row agrees with its left row on the left variables and with its right row on the right variables, and weighs the product of their weights. The two rows agree on the common variables. Every agreeing pair is emitted. |
| Product.MultiplyByOne | var_elimination.py:37-42 | Multiplying a non-scalar factor by the scalar 1 gives the same factor, with its rows in the same order. |
| Product.MultiplyCommutes | var_elimination.py:27-54 | Swapping the operands does not change whether the product succeeds. With exactly one scalar side both orders give the same factor. Every row of either result has a row in the other with the same variables, the same value for each variable and the same weight. |
| Product.JoinCovers | var_elimination.py:46-54 | Every row of the join of f1 and f2 reappears, with the same values and weight, in the join of f2 and f1. |
| Normalization.Normalize | var_elimination.py:57-64 | The scope and row order are kept, and every weight is divided by the total. The new weights sum to 1, and well-formedness is kept. |
| Normalization.NormalizeUnit | var_elimination.py:61-64 | A factor whose weights already sum to 1 comes back unchanged. |
| Normalization.NormalizeIdempotent | var_elimination.py:61-64 | Normalising twice is the same as normalising once. |
| Elimination.RestrictIfMentioned | var_elimination.py:123-124 | After one evidence step on one factor, the factor is well formed and mentions exactly its old variables except the evidence variable. |
| Elimination.RestrictAll | var_elimination.py:121-124 | After all evidence steps, a factor is well formed and mentions exactly its old variables that are not evidence. |
| Elimination.EvidenceAppliedVars | var_elimination.py:121-124 | After the evidence phase, the list's variables are exactly the original variables that are not evidence. No factor mentions an evidence variable. |
| Elimination.ApplyEvidence | var_elimination.py:121-124 | The in-place loop over evidence and factors ends with the evidence-phase list: every factor restricted to true on each evidence variable it mentions, in evidence order. |
| Elimination.FoldMultiply | var_elimination.py:144-147 | A left-to-right product fails only with `NoSharedVariable` or `EmptyScalar`. On success the result is well formed and its variables are those of all factors. |
| Elimination.FoldMultiplySharing | var_elimination.py:134-137 | Factors that all mention the hidden variable multiply without error. |
| Elimination.SumOutIfMentioned | var_elimination.py:140-141 | The result is well formed and mentions exactly the product's variables except the hidden one. |
| Elimination.Eliminated | var_elimination.py:134-141 | The product of the collected factors with the hidden variable summed out is well formed. Its variables are those of the collected factors minus the hidden variable. |
| Elimination.Collect | var_elimination.py:128-131 | The backward pop loop leaves exactly the factors that do not mention the variable, in their order. It collects exactly those that do, in reverse list order. |
| Elimination.EliminateStepSpec | var_elimination.py:127-142 | After one hidden variable, no factor mentions it and no other variable is lost. The factors that did not mention it stay untouched, in order, at the front. When k >= 1 factors mentioned it, the list shrinks by k - 1. When none did, the list is unchanged. A non-empty list stays non-empty. |
| Elimination.EliminateVariable | var_elimination.py:127-142 | The in-place pop, multiply, sum-out and append ends with the one-step elimination list. |
| Elimination.MultiplyAll | var_elimination.py:144-147 | An empty list gives `NoFactors`. Otherwise the accumulator loop returns the left-to-right product of the list, stopping at the first error. |
| Elimination.EliminateAllSpec | var_elimination.py:127-142 | After all hidden variables, the list's variables are the original ones minus the hidden ones. The list is empty exactly when it was empty before. |
| Elimination.InferSpec | var_elimination.py:116-150 | A successful query returns a well-formed factor whose weights sum to 1 whenever it has rows. Its scope is exactly the network's variables that are neither evidence nor hidden. The query fails with `NoFactors` exactly when the factor list is empty. |
| Elimination.Inference | var_elimination.py:116-150 | The method computes the query function. Its result, when there is one, ranges over exactly the variables that are neither evidence nor hidden, and its weights sum to 1 whenever it has rows. An empty final product is returned as it is. |
| Scenarios.MultiplyConstantExample | tests.py:87-98 | f0 times the scalar 0.1 is f0 with the weights 0.01, 0.02, 0.03 and 0.04, with the rows in the same order. |
| Scenarios.NormalizeExample | tests.py:59-62 | f0 sums to 1, so normalising gives f0 back. |
| Scenarios.SumOutSingleColumnExample | tests.py:46-57 | Summing the only variable out of eight rows gives the single scalar row 3.6. |

## Left out

- The `*_print` wrappers (var_elimination.py lines 67-113) only add console output around the operations. The model follows the silent path, which calls straight through.
- `factor_list`, `variables` and `main` (file and command-line I/O) are not part of this model. The factors, the evidence and the hidden variables are parameters.
- The default hidden-variable order at line 118 comes from a set difference, so its order is unspecified. The model takes the hidden variables as an explicit sequence that fixes the elimination order.
- The evidence value is hard-coded `True` at line 124. The model uses exactly that and does not generalise it.
- Weights are exact reals, so floating-point rounding is not modelled.
- The pandas index labels, the dtypes and the "weight is the last column" convention are not modelled.
- Normalization.Normalize: requires a nonzero total. On rows whose weights sum to zero the code divides by zero and yields NaN weights; `Infer` and `Inference` report that case as `ZeroTotal` instead, and return a product with no rows unchanged, as the code does.
- Elimination.Inference: a non-empty final product whose weights sum to zero gives `Err(ZeroTotal)`, where the code returns a table of NaN weights.
- Errors raised by pandas (`KeyError`, `IndexError`) and the explicit `raise` become `Err` results. Exception types and messages are not modelled.
- The source mutates one Python list in place. The model reassigns a `seq<Factor>`, so aliasing of that list by the caller is not captured.
- Product.MultiplyByOne: stated only for non-scalar factors, because the code raises when both sides are scalar.
- The worked examples of `restrict`, `sumout` over several columns, and the join in `tests.py` are not reproduced as concrete lemmas. Their row contents and order follow from `Restriction.Restrict`, `Marginal.SumOut`, `Product.JoinPairsSpec` and `Product.MultiplyRows`.
- The inference tests depend on a network file that is not part of this model.
- Product.MultiplyCommutes: states that each result covers the other's entries, not that the two results hold every entry the same number of times.
- The model does not prove two semantic facts about the result:
  - that it equals the marginal distribution of the network;
  - that it is independent of the elimination order.

  Either would need a semantic model of factor products.
