# In-memory repository model

This project models the generic in-memory repository of the PromoCodeFactory
service (`InMemoryRepository<T>`). The repository owns one ordered list of
entities, each carrying a `Guid` identifier. It offers construction from an
initial collection, `GetAll`, `GetById`, `Add`, `Update` and `Delete`. The
employee controller that calls it is not part of this model.

Layout:

- `wrappers.dfy`: `Option`, `Result` and `Outcome`. They stand for C#'s `null`, a return-or-throw, and a bare `Task`-or-throw.
- `entities.dfy`: `Guid` as a 128-bit newtype, and `Entity<P>(id, payload)`. `Role` and `Employee` are example payloads.
- `entity_lists.dfy`: specification functions over the stored list and the lemmas about them.
  - `HasId` is LINQ `Any`.
  - `FirstWithId` is `FirstOrDefault`.
  - `WithoutId` is `RemoveAll`.
  - `ReplaceFirst` is what an update is meant to do.
  - `UniqueIds` says that identifiers are pairwise distinct.
- `repository.dfy`: the class `InMemoryRepository<P>`. Its field `data` is the `_data` list, and its methods are proved against those functions. Four client scenarios exercise the methods: add, add, then delete (`ScenarioAddAddDelete`); a duplicate add (`ScenarioDuplicateAdd`); update and delete of an absent identifier (`ScenarioAbsentId`); and the lost update (`ScenarioUpdateIsLost`).

Exceptions become error results. `RepoError.DuplicateKey` is the exception thrown by
`AddAsync`, and `RepoError.NotFound` is the one thrown by `UpdateAsync`. On either error the stored list is
unchanged. Identifiers are never checked for uniqueness on construction. The
model proves instead that `Add`, `Update`, `UpdateReplacing` and `Delete` each
keep distinct identifiers distinct.

`Update` follows the code as written. It finds the entry and then rebinds only a
local variable. The Dafny method therefore has no `modifies` clause: it cannot change the
list, and it reports success exactly when the identifier is stored.
`UpdateReplacing` is the intended behaviour, kept as a separate method (see Findings).

## Model

| member | source | states |
|---|---|---|
| `Repositories.InMemoryRepository.constructor` | src/Otus.Teaching.PromoCodeFactory.DataAccess/Repositories/InMemoryRepository.cs:14-17 | the stored list equals the initial collection element for element and in order; no uniqueness check |
| `Repositories.InMemoryRepository.GetAll` | src/Otus.Teaching.PromoCodeFactory.DataAccess/Repositories/InMemoryRepository.cs:19-22 | returns exactly the stored list in insertion order and changes nothing (no `modifies`) |
| `Repositories.InMemoryRepository.GetById` | src/Otus.Teaching.PromoCodeFactory.DataAccess/Repositories/InMemoryRepository.cs:24-27 | the linear scan returns the first stored entity with the identifier, and none exactly when no entity has it; state unchanged |
| `Repositories.InMemoryRepository.AnyWithId` | src/Otus.Teaching.PromoCodeFactory.DataAccess/Repositories/InMemoryRepository.cs:31 | the scan answers true exactly when some stored entity carries the identifier |
| `Repositories.InMemoryRepository.Add` | src/Otus.Teaching.PromoCodeFactory.DataAccess/Repositories/InMemoryRepository.cs:29-37 | a stored identifier gives DuplicateKey with the list unchanged; a fresh one appends the value at the end, returns it, makes the lookup of its identifier return it, and keeps identifiers distinct |
| `Repositories.InMemoryRepository.Update` | src/Otus.Teaching.PromoCodeFactory.DataAccess/Repositories/InMemoryRepository.cs:39-50 | NotFound exactly when no stored entity carries the identifier; success otherwise; the list is never written |
| `Repositories.InMemoryRepository.UpdateReplacing` | src/Otus.Teaching.PromoCodeFactory.DataAccess/Repositories/InMemoryRepository.cs:39-50 | intended update: NotFound with the list unchanged, or the first match replaced by the value so that the lookup returns it; identifiers stay distinct |
| `Repositories.InMemoryRepository.Delete` | src/Otus.Teaching.PromoCodeFactory.DataAccess/Repositories/InMemoryRepository.cs:52-56 | never fails; the new list is the old one with every entity of that identifier removed; afterwards no entity has it; identifiers stay distinct |
| `EntityLists.FirstWithId` | src/Otus.Teaching.PromoCodeFactory.DataAccess/Repositories/InMemoryRepository.cs:26 | the lookup is absent exactly when no entity carries the identifier, and otherwise returns a stored entity carrying it |
| `EntityLists.FirstWithIdIsFirst` | src/Otus.Teaching.PromoCodeFactory.DataAccess/Repositories/InMemoryRepository.cs:26 | the lookup returns the entity at the first position carrying the identifier |
| `EntityLists.FirstWithIdOfUnique` | src/Otus.Teaching.PromoCodeFactory.DataAccess/Repositories/InMemoryRepository.cs:24-27 | with distinct identifiers, looking up any stored entity's identifier returns that entity |
| `EntityLists.FirstWithIdAfterAppend` | src/Otus.Teaching.PromoCodeFactory.DataAccess/Repositories/InMemoryRepository.cs:35-36 | after appending a value with a fresh identifier, the lookup of that identifier returns the value |
| `EntityLists.FirstWithIdAppendOther` | src/Otus.Teaching.PromoCodeFactory.DataAccess/Repositories/InMemoryRepository.cs:35 | appending leaves the lookup of every other identifier unchanged |
| `EntityLists.HasIdAppend` | src/Otus.Teaching.PromoCodeFactory.DataAccess/Repositories/InMemoryRepository.cs:31-35 | after an append, an identifier is stored exactly when it was stored before or is the appended entity's |
| `EntityLists.AppendKeepsUnique` | src/Otus.Teaching.PromoCodeFactory.DataAccess/Repositories/InMemoryRepository.cs:31-35 | appending a value whose identifier is not stored keeps identifiers distinct |
| `EntityLists.WithoutId` | src/Otus.Teaching.PromoCodeFactory.DataAccess/Repositories/InMemoryRepository.cs:54 | removal leaves no entity with the identifier, keeps only stored entities, and keeps every stored entity with another identifier |
| `EntityLists.WithoutIdConcat` | src/Otus.Teaching.PromoCodeFactory.DataAccess/Repositories/InMemoryRepository.cs:54 | removal distributes over concatenation, so kept entities stay in their original relative order |
| `EntityLists.WithoutIdSubsequence` | src/Otus.Teaching.PromoCodeFactory.DataAccess/Repositories/InMemoryRepository.cs:54 | what removal keeps is a subsequence of the original list |
| `EntityLists.WithoutIdCounts` | src/Otus.Teaching.PromoCodeFactory.DataAccess/Repositories/InMemoryRepository.cs:54 | each entity with another identifier is kept exactly as often as it occurred; entities with the identifier are kept zero times |
| `EntityLists.WithoutIdAbsent` | src/Otus.Teaching.PromoCodeFactory.DataAccess/Repositories/InMemoryRepository.cs:54 | removing an identifier nobody carries is a no-op |
| `EntityLists.WithoutIdIdempotent` | src/Otus.Teaching.PromoCodeFactory.DataAccess/Repositories/InMemoryRepository.cs:54 | deleting twice gives the same list as deleting once |
| `EntityLists.WithoutIdKeepsUnique` | src/Otus.Teaching.PromoCodeFactory.DataAccess/Repositories/InMemoryRepository.cs:54 | removal keeps distinct identifiers distinct |
| `EntityLists.ReplaceFirst` | src/Otus.Teaching.PromoCodeFactory.DataAccess/Repositories/InMemoryRepository.cs:41-43 | the intended update keeps the length and changes nothing when no entity carries the identifier; which position it replaces is proved by `ReplaceFirstAt` |
| `EntityLists.ReplaceFirstAt` | src/Otus.Teaching.PromoCodeFactory.DataAccess/Repositories/InMemoryRepository.cs:41-43 | the intended update replaces exactly the first matching position and leaves every other position alone |
| `EntityLists.ReplaceFirstFound` | src/Otus.Teaching.PromoCodeFactory.DataAccess/Repositories/InMemoryRepository.cs:41-43 | after the intended update, the lookup of the identifier returns the new value |
| `EntityLists.ReplaceFirstKeepsUnique` | src/Otus.Teaching.PromoCodeFactory.DataAccess/Repositories/InMemoryRepository.cs:41-43 | the intended update keeps identifiers distinct |
| `EntityLists.StaleAfterUpdate` | src/Otus.Teaching.PromoCodeFactory.DataAccess/Repositories/InMemoryRepository.cs:41-44 | after the update as written, a value that differs from every stored entity is not what the lookup of its identifier returns |
| `Repositories.StaleLookupAfterUpdate` | src/Otus.Teaching.PromoCodeFactory.DataAccess/Repositories/InMemoryRepository.cs:39-50 | on any repository, when the identifier is stored and the new value differs from every stored entity, the update as written reports success and the following lookup still does not return the new value |

## Findings

| source | as written | input that shows it | evidently intended | confidence | as-written member | corrected member |
|---|---|---|---|---|---|---|
| src/Otus.Teaching.PromoCodeFactory.DataAccess/Repositories/InMemoryRepository.cs:41-44 | `item = value` rebinds the pattern variable only, so the list keeps the old entity and success is still reported | list `[Entity(3, before)]`, `Update(Entity(3, after))` with `after != before`: the following `GetById(3)` returns `Entity(3, before)` | the first entity with that identifier is replaced by `value` | medium, not executed; the employee controller hides it because it changes the stored object through a shared reference before calling the update (EmployeesController.cs:150-154) | `Repositories.InMemoryRepository.Update`, `Repositories.StaleLookupAfterUpdate`, `EntityLists.StaleAfterUpdate`, `Repositories.ScenarioUpdateIsLost` | `Repositories.InMemoryRepository.UpdateReplacing`, `EntityLists.ReplaceFirstFound` |

## Left out

- Entities are values. Object identity is not modelled, and neither is mutation through a shared reference; the controller's update path relies on such mutation (EmployeesController.cs:150-154).
- `null` entries in the list and `null` arguments are not modelled. What happens then depends on whether a scan reaches the `null`:
  - The constructor given a `null` collection throws `ArgumentNullException` (line 16).
  - On an empty list, `AddAsync(null)` never calls the `Any` lambda, so it stores `null` and succeeds (lines 31, 35).
  - On an empty list, `DeleteAsync(null)` returns normally (line 54).
  - On an empty list, `UpdateAsync(null)` throws `InvalidOperationException` with "Item not found" (lines 41, 48).
  - On a non-empty list, a scan that reaches a `null` entry, or evaluates `value.Id` on a `null` argument, throws `NullReferenceException`. `FirstOrDefault` and `Any` stop at the first match, so they never reach a `null` entry placed after it.
- The `Task` wrappers (`Task.FromResult`, `Task.CompletedTask`) are dropped: the operations are synchronous methods because nothing ever suspends.
- `GetAllAsync` returns a live `AsEnumerable()` view of the backing list. The model returns the list as a value, so callers cannot change the repository through it.
- Repositories.InMemoryRepository.Delete: `List.RemoveAll` compacts the list in place. The model builds the kept entities in order and then assigns them. The resulting list is the same, but the in-place mechanics are not modelled.
- The exception messages ("Item with the same Id already exists", "Item not found") are not modelled; both errors are `InvalidOperationException` in the code and two error kinds here.
- Concurrency is not modelled: the list is unsynchronised and the model is sequential.
- The controller, the request models and their validation attributes, and `Guid.NewGuid()` are outside this model. `BaseEntity`, `Employee` and `Role` are not part of this model; only `Id` and its equality are relied on, and the `Employee`/`Role` payloads mirror the fields the controller sets. `appliedPromocodesCount` is an `int` with no range check, as in the request models.
