# Prism vault exchange-rate ledger

A Dafny model of the exchange-rate ledger of the Prism liquid-staking vault
(`prism_protocol::vault`). The vault converts bonded Luna into a derivative
token. Its persistent `State` record holds seven fields. Its one operation,
`State::update_exchange_rate(total_issued, requested_with_fee)`, recomputes the
rate:

- the supply is `total_issued + requested_with_fee`;
- the rate is exactly `Decimal::one()` when the bonded total or that supply is zero;
- otherwise it is `Decimal::from_ratio(total_bond_amount, supply)`.

Files:

- `numerics.dfy` (module `Numerics`): the library types the record uses.
  `Uint64` and `Uint128` are subset types of `nat`. `CheckedAdd` is the
  `Uint128` addition, which aborts on overflow. `Decimal` is a count of
  atomics with 10^18 atomics per unit. `ONE` and `FromRatio` model
  `Decimal::one()` and `Decimal::from_ratio`. `FromRatio` uses a full-width
  intermediate product and truncates the quotient. It aborts on a zero
  denominator, and when the quotient does not fit 128 bits.
- `vault.dfy` (module `Vault`): the `UnbondRequest` sequence of
  `(batch id, amount)` pairs and the `UnbondHistory` record, as plain data.
  It also holds `StateValue`, the seven fields as a value, and the
  specification functions `ExchangeRate` and `Updated`. The class `State`
  holds the seven fields as mutable fields. Its method `UpdateExchangeRate`
  assigns `exchangeRate` in place. The file also holds the lemmas about the
  rate.

A panic in the library aborts the whole contract call, and the host then
discards every write. The model gives such a call an `Err` or `Fail(Overflow)`
outcome and leaves the state as it was.

Facts about the code that the model makes explicit:

- `update_exchange_rate` writes only `exchange_rate`. `last_index_modification`
  is never touched, so `UpdateExchangeRate` changes no other field.
- The rate can be zero: 1 bonded against a supply above 10^18 truncates to 0
  (`RateCanTruncateToZero`). The derived `Default` also starts with a zero rate.
- The supply is summed before the zero guard. So an overflowing sum aborts even
  with nothing bonded, and `ZeroBondRateIsOne` requires the sum to fit.

## Data

| type | source | mirrors |
|---|---|---|
| `Numerics.Uint64` | packages/prism_protocol/src/vault.rs:22 | `u64`: naturals below 2^64. |
| `Numerics.Uint128` | packages/prism_protocol/src/vault.rs:21 | `Uint128`: naturals below 2^128. |
| `Numerics.Decimal` | packages/prism_protocol/src/vault.rs:20 | `Decimal`: a `Uint128` count of atomics, 10^18 atomics per unit. |
| `Vault.UnbondRequest` | packages/prism_protocol/src/vault.rs:6 | `Vec<(u64, Uint128)>`: a sequence of `(batch id: Uint64, amount: Uint128)` pairs. |
| `Vault.UnbondHistory` | packages/prism_protocol/src/vault.rs:158-165 | All six fields: `batchId` and `time` as `Uint64`, `amount` as `Uint128`, `appliedExchangeRate` and `withdrawRate` as `Decimal`, `released` as `bool`. |
| `Vault.StateValue` | packages/prism_protocol/src/vault.rs:19-27 | All seven `State` fields as a value: `exchangeRate` a `Decimal`; `totalBondAmount`, `prevVaultBalance` and `actualUnbondedAmount` as `Uint128`; `lastIndexModification`, `lastUnbondedTime` and `lastProcessedBatch` as `Uint64`. |
| `Vault.State` | packages/prism_protocol/src/vault.rs:19-27 | The same seven fields, as mutable fields of a class. |
| `Vault.State.Value` | packages/prism_protocol/src/vault.rs:19-27 | The seven fields of the class as a `StateValue`. |
| `Numerics.CheckedAdd` | packages/prism_protocol/src/vault.rs:41 | `Uint128 +`: the exact sum, or an `Overflow` abort at 2^128. |
| `Numerics.ONE` | packages/prism_protocol/src/vault.rs:43 | `Decimal::one()`: 10^18 atomics. |

## Model

| member | source | states |
|---|---|---|
| `Numerics.FromRatio` | packages/prism_protocol/src/vault.rs:45 | `from_ratio(n, d)` aborts with `DivideByZero` exactly when `d == 0`. For `d > 0` it aborts with `Overflow` exactly when `n * 10^18 >= 2^128 * d`. Otherwise it returns the unique `q` with `q * d <= n * 10^18 < (q + 1) * d`. |
| `Vault.ExchangeRate` | packages/prism_protocol/src/vault.rs:41-45 | The rate aborts only with `Overflow`, never with a division by zero. It aborts exactly when the supply sum leaves `Uint128`, or both sides are nonzero and the ratio leaves `Decimal`. When either side is zero the rate is one. Otherwise it is the floor of `bond * 10^18 / supply`, stated by multiplication bounds. |
| `Vault.Updated` | packages/prism_protocol/src/vault.rs:39-48 | The update succeeds exactly when the rate computation does. Its new `exchangeRate` is that rate, and every other field of the record equals its old value. |
| `Vault.ZeroBondRateIsOne` | packages/prism_protocol/src/vault.rs:41-43 | With a zero bonded total and a supply that fits `Uint128`, the rate is exactly `Decimal::one()`. |
| `Vault.ZeroSupplyRateIsOne` | packages/prism_protocol/src/vault.rs:41-43 | With `total_issued + requested_with_fee == 0`, the rate is exactly `Decimal::one()` whatever is bonded. |
| `Vault.RateIsFloor` | packages/prism_protocol/src/vault.rs:41-45 | When both sides are nonzero and nothing aborts, the rate's atomics equal `floor(total_bond_amount * 10^18 / (total_issued + requested_with_fee))`. |
| `Vault.RateDependsOnlyOnSupply` | packages/prism_protocol/src/vault.rs:41 | Two argument pairs with the same sum give the same outcome. This covers swapping the two arguments and moving an amount from one to the other. |
| `Vault.RateIsOneAtPar` | packages/prism_protocol/src/vault.rs:45 | A bonded total equal to the nonzero supply never aborts and gives exactly `Decimal::one()`. |
| `Vault.ParExample` | packages/prism_protocol/src/vault.rs:45 | Bonded 100 against a supply of 0 + 100 gives 1.0. |
| `Vault.RateMonotoneInBond` | packages/prism_protocol/src/vault.rs:45 | For a fixed supply and a nonzero bonded total, bonding more never lowers the rate. |
| `Vault.RateAntitoneInSupply` | packages/prism_protocol/src/vault.rs:45 | For a fixed nonzero bonded total, a larger nonzero supply never raises the rate. |
| `Vault.ZeroGuardIsNotMonotone` | packages/prism_protocol/src/vault.rs:42-45 | The zero guard makes the rate jump: 0 bonded against 10 gives 1.0, while 1 bonded against 10 gives 0.1. So monotonicity in the bonded total holds only above zero. |
| `Vault.RateCanTruncateToZero` | packages/prism_protocol/src/vault.rs:45 | A nonzero bonded total can give a zero rate: 1 bonded against 10^18 + 1 gives 0. |
| `Vault.UpdateIdempotent` | packages/prism_protocol/src/vault.rs:40-47 | Applying the update again with the same arguments to its own result gives that result again. |
| `Numerics.FromRatioMonotone` | packages/prism_protocol/src/vault.rs:45 | When neither call aborts, a larger numerator never gives a smaller `from_ratio` result. |
| `Numerics.FromRatioAntitone` | packages/prism_protocol/src/vault.rs:45 | When neither call aborts, a larger denominator never gives a larger `from_ratio` result. |
| `Numerics.FromRatioIsScaleInvariant` | packages/prism_protocol/src/vault.rs:45 | Scaling numerator and denominator by the same positive factor gives the same `from_ratio` outcome, for every denominator, `DivideByZero` and `Overflow` aborts included. |
| `Vault.RateIsScaleInvariant` | packages/prism_protocol/src/vault.rs:41-45 | Scaling the bonded total and the supply by the same positive factor gives the same outcome, as long as the scaled supply fits `Uint128`. The rate depends only on their ratio. |
| `Vault.Replay` | packages/prism_protocol/src/vault.rs:40-47 | Replays a sequence of update calls, each its own transaction: an aborted call leaves the record as it was for the next call. After any such sequence, every field except `exchangeRate` still holds its starting value. |
| `Vault.ReplayLastCallWins` | packages/prism_protocol/src/vault.rs:40-47 | After any sequence of calls whose last call succeeds, the record is what that last call alone makes of the starting record. The rate keeps no memory of earlier calls. |
| `Vault.ReplayAllAbort` | packages/prism_protocol/src/vault.rs:40-47 | A sequence of calls that all abort leaves the record unchanged. |
| `Vault.State.Default` | packages/prism_protocol/src/vault.rs:18-27 | The derived default record has every field zero, the exchange rate included. |
| `Vault.State.UpdateExchangeRate` | packages/prism_protocol/src/vault.rs:39-48 | The method writes only `exchangeRate`. It passes exactly when `Updated` succeeds on the old record, and the new record is then `Updated`'s result. On an `Overflow` abort the record is unchanged. |
| `Vault.UpdateTwice` | packages/prism_protocol/src/vault.rs:40-47 | Two calls in a row with the same arguments have the same outcome and leave the record as a single call does. |

## Left out

- `ExecuteMsg`, `QueryMsg`, `Cw20HookMsg`, `InstantiateMsg`, `MigrateMsg` and the `*Response` structs: wire schemas with no behaviour.
- The bond, unbond, split/merge, batch close/release, withdraw and slashing handlers that the messages name live in the vault contract, which this model does not cover.
- `Config`: optional address strings with no logic attached.
- `UnbondRequest` and `UnbondHistory` are data declarations only. The code that operates on them lives in the vault contract, which this model does not cover.
- Serialization derives, `Cw20ReceiveMsg` and `Binary` payloads: library plumbing.
- contracts/prism-collector/src/testing.rs: tests of the reward-collector contract, whose code is not part of this model. They depend on a mock querier, pair lookups and a chain tax query.
- The library's `Uint128` and `Decimal` are taken as described above. Their implementation is not part of this model, and the library version is not pinned in the modelled file. `FromRatio` assumes the cosmwasm-std 0.16 behaviour: `Uint128::multiply_ratio` forms `n * 10^18` with a 256-bit intermediate product, and it aborts only when the quotient leaves 128 bits. A version that formed `n * 10^18` in `u128` would abort earlier, as soon as `n * 10^18 >= 2^128`. For example, bond = supply = 10^21 would abort there, while `RateIsOneAtPar` says it does not abort here.
