# Deep-Q-learning agent core, modelled in Dafny

This project models the learning core of a small deep-Q-learning agent, as it
appears in `utils/learning.py`. It acts by a softmax over temperature-scaled
Q-values (a Boltzmann policy), or greedily in a mode without a temperature.

- **Buffer**: the experience replay buffer `StateBuffer`. It is a class whose
  `buffers` field is a bounded FIFO of transition records. It draws batches of
  distinct records and re-stacks them field by field.
- **Policy**: the discrete parts of `QAgent.beta_softmax`. These are the
  temperature chosen per mode (sample, train, deploy), the additive `-1e9`
  invalid-action mask, and the greedy one-hot policy used when the chosen
  temperature is unset. The greedy branch is also modelled as the source
  computes it, by writing ones into a zeroed 2-D array.
- **Agent**: the derived configuration of `QAgent.__init__` (the value cap
  `q_cap = reward_cap / (1 - gamma)`) and the `QAgent` class. The class holds
  the online and target parameter arrays. `update_target_network` updates the
  target array in place by an exponential moving average.
- **Loss**: the temporal-difference part of `QAgent.get_loss`:
  - masked outputs and the behaviour policy;
  - masked and capped next-state values;
  - the target policy and the expected next value;
  - the bootstrapped target `reward + gamma * next_value`;
  - the gathered prediction.
- **Action**: `QAgent.get_action`. It draws one action per row, falls back to
  the arg-max of the probabilities when drawing fails, and shapes the result
  into a scalar or a list.
- **Tensors**: rows and matrices of reals, sums, dot products, one-hot rows,
  distributions, and the first arg-max (`torch.argmax`).

Tensors are sequences of `real`. The network forward passes enter the model as
their outputs: `onlineQ` for the online network on the states, and `targetQ`
for the target network on the next states. Randomness enters as a parameter:
`draw` for `random.sample`, and an optional `draw` for `torch.multinomial`,
where `None` means sampling raised. The tempered softmax is a caller-supplied
row function. It keeps the row length and returns a probability distribution
on every non-empty row (`Policy.IsRowSoftmax`).

The next-state values are masked twice. Line 93 masks them with
`next_state_action_validity`. Lines 99-102 then pass them to `beta_softmax`
with the current `action_validity`, which masks them again (lines 188-189).
The model keeps both masks. `Loss.TargetPolicyUsesCurrentValidity` is a
concrete case in exact arithmetic where a greedy target bootstraps from an
action that is invalid in the next state. The gap in that case is wide
enough to survive float32 rounding. `Policy.DoubleMaskSameGreedyChoice`
shows that masking twice with the same validity, as lines 87 and 89 do,
does not change a greedy choice, provided some action is valid and the raw
values of the row span less than 1e9. Without that condition it can: for
`[0, 2e9]` with only action 0 valid, one mask picks action 1 and two pick
action 0.

## Model

| member | source | states |
|---|---|---|
| Tensors.ArgMax | utils/learning.py:196 | `torch.argmax` gives the first index of a maximal entry: no entry is larger and every earlier entry is strictly smaller |
| Tensors.ArgMaxUnique | utils/learning.py:196 | The first maximal index is unique: any index with that property is the one `ArgMax` returns |
| Tensors.OneHotIsDistribution | utils/learning.py:195-196 | The greedy one-hot row is non-negative and sums to one |
| Tensors.Dot | utils/learning.py:104 | The `"ba,ba->b"` contraction for one batch row, used for every target. It has no contract of its own: its properties are `Tensors.DotZeros`, `Tensors.DotOneHot` and `Tensors.ExpectationBelow` |
| Tensors.DotZeros | utils/learning.py:104 | Actions of zero probability contribute nothing: an all-zero weighting contracts to zero |
| Tensors.DotOneHot | utils/learning.py:104 | Contracting a one-hot probability row with a value row picks out that action's value |
| Tensors.ExpectationBelow | utils/learning.py:104 | The expected value under any distribution is at most any bound on all the values |
| Policy.SelectBeta | utils/learning.py:181-186 | The sample, train and deploy modes select the sample, train and deploy temperatures respectively |
| Policy.Penalty | utils/learning.py:85-86 | `(~valid).float() * -1e9` is 0 for a valid action and exactly -1e9 for an invalid one |
| Policy.MaskRow | utils/learning.py:188-189 | Masking keeps the row length, leaves valid entries unchanged and lowers each invalid entry by exactly 1e9 |
| Policy.Mask | utils/learning.py:85-87 | Masking a tensor keeps its row count and masks every row with its own validity row |
| Policy.PolicyInput | utils/learning.py:188-189 | The policy ranks the masked values when a validity tensor is given, and the raw values otherwise; both keep the shape |
| Policy.BetaSoftmax | utils/learning.py:167-196 | The policy returns one probability row per input row |
| Policy.GreedyProbabilities | utils/learning.py:194-196 | Starting from a zero array and writing a 1 per row at `argmax` gives an array with 1 exactly at each row's first maximum and 0 everywhere else |
| Policy.GreedyIsFirstMaxOneHot | utils/learning.py:194-196 | Without a temperature the row policy is 1 exactly at the row's first maximum, so it agrees entry by entry with `GreedyProbabilities` |
| Policy.GreedyWhenBetaUnset | utils/learning.py:181-196 | When the chosen mode's temperature is `None`, every output row is one-hot at the first maximum of the masked row |
| Policy.DispatchUsesOnlySelectedBeta | utils/learning.py:181-186 | Two configurations that agree on the requested mode's temperature give the same probabilities |
| Policy.Scale | utils/learning.py:193 | `outputs * beta` keeps the row length and multiplies every value by the temperature |
| Policy.PolicyRow | utils/learning.py:191-196 | The policy of one row is a distribution of the row's length, in both the softmax and the greedy branch. With a temperature it is the softmax of the row scaled by that temperature |
| Policy.PolicyRowsAreDistributions | utils/learning.py:191-196 | Every row `beta_softmax` returns has the input row's length and is a probability distribution |
| Policy.GreedyPicksValidAction | utils/learning.py:188-189 | If some action is valid and the raw values span less than 1e9, the greedy choice on the masked row is valid and maximal among the valid actions |
| Policy.DoubleMaskSameGreedyChoice | utils/learning.py:87-89 | Under the same condition, masking a second time with the same validity leaves the greedy choice unchanged |
| Policy.DoubleMaskCanChangeGreedyChoice | utils/learning.py:87-89 | Without the spread condition a second mask can change the greedy choice: for `[0, 2e9]` with only action 0 valid, one mask picks action 1 and two pick action 0 |
| Policy.MaskAllValid | utils/learning.py:188-189 | With every action valid, masking is the identity |
| Agent.NewConfig | utils/learning.py:59-64 | Building the configuration fails exactly when a reward cap is given and `gamma == 1`. Otherwise it keeps `gamma` and the temperatures, has a value cap exactly when a reward cap is given, and that cap times `1 - gamma` equals the reward cap |
| Agent.QCapIsFixedPoint | utils/learning.py:64 | For `gamma != 1` the value cap `q` satisfies `q == reward_cap + gamma * q` |
| Agent.Ema | utils/learning.py:162-165 | The moving-average step yields one entry per parameter |
| Agent.EmaOneCopies | utils/learning.py:162-165 | With `tau = 1` the target parameters become the online parameters |
| Agent.EmaZeroFreezes | utils/learning.py:162-165 | With `tau = 0` the target parameters do not move |
| Agent.EmaKeepsSynchronised | utils/learning.py:162-165 | Target parameters equal to the online ones stay equal for every `tau` |
| Agent.EmaShrinksGap | utils/learning.py:162-165 | Each step multiplies every target-to-online gap by `1 - tau` |
| Agent.EmaBetween | utils/learning.py:162-165 | For `0 <= tau <= 1` each new target parameter lies between its old value and the online value |
| Agent.QAgent.constructor | utils/learning.py:57-68 | The online and target parameters are two distinct fresh arrays, both holding the initial parameters |
| Agent.QAgent.UpdateTargetNetwork | utils/learning.py:154-165 | In place, the target array becomes the moving average of its old contents and the online array. The online array is unchanged |
| Loss.CapRow | utils/learning.py:94-97 | Without a cap the row is unchanged. With a cap every entry is at most the cap and at most its old value, and is either its old value or the cap |
| Loss.Cap | utils/learning.py:94-97 | Capping a tensor caps every row |
| Loss.ExpectedValues | utils/learning.py:104 | The row-wise contraction gives one expected value per row |
| Loss.TargetPolicy | utils/learning.py:99-102 | The training-mode policy over the next-state values is a distribution of the row's length |
| Loss.RowTarget | utils/learning.py:93-106 | With a cap and `gamma >= 0`, the target is at most `reward + gamma * q_cap` whatever the policy. Without a training temperature, it is `reward + gamma` times the capped value of the greedy action, chosen on the values masked again with the current validity |
| Loss.Bootstrap | utils/learning.py:106 | With no discount, or a next value of zero, the target is the reward alone. With `gamma = 1` it is the reward plus the whole next value |
| Loss.BootstrapMonotone | utils/learning.py:106 | With `gamma >= 0` a larger next value never gives a smaller target |
| Loss.TargetBound | utils/learning.py:94-106 | When every capped value is at most the cap, the expected target is at most the reward plus the discounted cap |
| Loss.GreedyBootstrap | utils/learning.py:99-104 | Without a training temperature, the expected next value is the capped value at the greedy action |
| Loss.GetLoss | utils/learning.py:70-108 | The outputs are the online values masked with the current validity, one row of `action_size` entries per batch row. Each behaviour-policy row has `action_size` entries and is a probability distribution. There is one target and one prediction per batch row. The behaviour policy is `beta_softmax` in sample mode over the masked outputs, masked again with the current validity |
| Loss.GetLossRows | utils/learning.py:85-108 | Each target is that row's bootstrapped target. Each prediction is the online output of the taken action, and 1e9 lower when that action was invalid |
| Loss.GreedyBehaviourPolicy | utils/learning.py:87-89 | Without a sampling temperature each behaviour-policy row is 1 exactly at the first maximum of the outputs masked once more with the current validity |
| Loss.TargetsMatchTensorForm | utils/learning.py:93-106 | Each row target equals the tensor computation `reward + gamma * einsum(next_probabilities, next_q_values_capped)`, with the contraction taken by `ExpectedValues` over the whole batch, with the policy over the next-state tensor masked by the current validity |
| Loss.BelowFixedPoint | utils/learning.py:64 | A target bounded by the reward plus the discounted cap, with a reward within `reward_cap`, stays within a fixed point of the bound |
| Loss.TargetWithinValueCap | utils/learning.py:64-106 | For `0 <= gamma < 1` and a reward at most `reward_cap`, every target is at most `q_cap`, whatever the next-state estimates and the policy |
| Loss.CapExample | utils/learning.py:64-106 | `gamma = 0.9` and `reward_cap = 10` give `q_cap = 100`. A reward of 5 with a next state estimated at 200 then gives a target of at most 95 |
| Loss.TargetPolicyUsesCurrentValidity | utils/learning.py:93-102 | A concrete greedy case, in exact arithmetic, in which the target bootstraps from the penalised value of an action that is invalid in the next state, because the target policy is masked with the current validity. The two values differ by 1000, more than the float32 spacing of 64 near 1e9, so single precision makes the same choice |
| Action.ShapeActions | utils/learning.py:149-152 | A one-row draw gives a single index (`item()`). Any other row count gives the list of indices unchanged (`flatten().tolist()`) |
| Action.ShapeRoundTrip | utils/learning.py:149-152 | Reading back the indices from the shaped result returns the draw |
| Action.ArgMaxRows | utils/learning.py:147 | The fallback picks the first most probable action of every row |
| Action.GetAction | utils/learning.py:138-152 | `get_action` yields one action per row, and a scalar exactly when there is one row. When the draw succeeds, the returned actions are exactly the drawn indices |
| Action.FallbackPicksMostProbable | utils/learning.py:142-147 | When sampling raises, each row's action is the first most probable action under the policy |
| Action.GreedyActionIsArgMax | utils/learning.py:138-147 | Without a temperature for the mode, each row's action is the first arg-max of its masked values. This holds both for a successful draw with positive probability and for the fallback |
| Buffer.Latest | utils/learning.py:216 | A deque bounded at `n` keeps all of a short history and exactly `n` entries of a long one |
| Buffer.Fill | utils/learning.py:216-219 | Appending records one at a time to a deque within its capacity `n` leaves `min(old length + appended, n)` records |
| Buffer.LatestConcat | utils/learning.py:216-219 | Truncating to the newest `n` before appending more leaves the same contents as truncating once at the end |
| Buffer.FillKeepsMostRecent | utils/learning.py:216-219 | Appending records one at a time to a bounded deque leaves exactly the `n` most recent records, oldest first |
| Buffer.OverflowEvictsOldest | utils/learning.py:216-219 | After `n + k` appends to an empty deque of size `n`, it holds `n` records: all but the first `k` |
| Buffer.DistinctBound | utils/learning.py:226 | Pairwise-distinct draws from a set are no more numerous than the set |
| Buffer.FullSampleTakesAll | utils/learning.py:226 | Sampling as many distinct positions as there are records takes every record |
| Buffer.Select | utils/learning.py:226 | The sampled batch is the records at the drawn positions, in draw order |
| Buffer.Column | utils/learning.py:230 | `[d[key] for d in batch]` has one entry per sampled record: record `i`'s value for the key |
| Buffer.Restack | utils/learning.py:228-230 | The stacked batch has exactly the first record's fields, each with one entry per sampled record |
| Buffer.RestackRoundTrip | utils/learning.py:227-230 | When all records have the same fields, unstacking the stacked batch gives back the records |
| Buffer.StateBuffer.constructor | utils/learning.py:212-216 | A new buffer is empty and keeps its capacity and batch size |
| Buffer.StateBuffer.Add | utils/learning.py:218-219 | Appending keeps the buffer within capacity, and its contents become the newest `buffer_size` of the old contents plus the record |
| Buffer.StateBuffer.Len | utils/learning.py:234-235 | The length is the number of stored records and never exceeds the capacity |
| Buffer.StateBuffer.Clear | utils/learning.py:237-238 | Clearing leaves the buffer empty |
| Buffer.StateBuffer.GetBatch | utils/learning.py:221-232 | Each outcome holds exactly when its condition does: `ValueError` when there are fewer records than the batch size, `IndexError` for a zero batch size, `KeyError` when a sampled record lacks a field of the first. On success every field of the first sampled record maps to the column of drawn records' values, in draw order |

## Left out

- The Q-network (`QNetwork`, lines 11-41) is not modelled. Its forward passes enter as the tensors `onlineQ` and `targetQ`, and its parameters as one flat array of reals.
- The softmax itself (`F.softmax`) is not modelled. It is a caller-supplied row function, constrained only by preserving length and returning a distribution.
- `smooth_l1_loss` and the KL-divergence diagnostic (lines 109-114) are not modelled. `Loss.GetLoss` stops at the predictions and targets they consume.
- The negative-probability and NaN/inf guards of `beta_softmax` (lines 198-206) are not modelled. They act on a whole tensor of floats, and the model has no NaN or infinity.
- Policy.BetaSoftmax and Action.GetAction accept a batch of zero rows and return no rows. The source raises instead, because `probabilities.max()` at line 199 fails on an empty tensor.
- `torch.multinomial` and `random.sample` are not modelled as randomness. They enter as drawn indices, and only the support is constrained: positive probability, or distinct positions. The uniformity of the draws is outside the model. The logging in the fallback is dropped.
- Gradient tracking (`torch.no_grad`, autograd) has no counterpart.
- `load_state_dict` and `state_dict` are modelled as copying one flat array of reals. The two `BatchNorm2d` layers (lines 21 and 23) also put buffers into `state_dict()`: float running statistics, and an integer `num_batches_tracked` counter each. The loop at lines 163-165 averages those too, and `copy_` truncates the averaged counters back to integers. `UpdateTargetNetwork` treats every entry as a real and does not model that truncation.
- Policy.BetaSoftmax: a 1-D validity mask, broadcast over the batch by the source, is modelled only in its per-row (2-D) form.
- Policy.SelectBeta: a mode string outside the three modes is excluded by the `Mode` datatype. The source would then fail with an unbound `beta`.
- Buffer.StateBuffer.constructor: negative capacities or batch sizes are excluded by `nat`. `deque` and `random.sample` reject them at run time.
- Buffer.StateBuffer.GetBatch: values are opaque, so a `torch.stack` failure on tensors of unequal shape is not modelled.
- Shape mismatches between tensors, which PyTorch reports as run-time errors, are preconditions in the model.
- Arithmetic is exact: the model uses real numbers, not 32-bit floats, so float rounding is not modelled. For example, `1/(1-0.9)*10` is exactly 100 in `Loss.CapExample`.
