# my-finances-api: release and user services in Dafny

This project models the domain core of the `my-finances-api` personal-finance
back end. It covers three parts.

- **Releases (`lançamentos`).** `LancamentoServiceImpl` holds these operations:
  - `validar`, the six ordered checks;
  - `salvar`, `atualizar`, `deletar` and `atualizarStatus`, the release life cycle;
  - `obterPorId`, lookup by id;
  - `lastReleases`;
  - the settled-value aggregates `getExtractByReleaseType` and `obterSaldoPorUsuario`;
  - `getReleasesPaginated`, the owner-checked listing.
- **Users.** `UsuarioServiceImpl` holds `autenticar`, `salvarUsuario`, `validarEmail` and `getById`.
- **The stores.** `LancamentoRepository` contributes the meaning of its three custom queries:
  - the `sum(l.valor)` query per owner, type and status;
  - `lastReleases`, ordered by id descending;
  - the paginated `findAll` with its count query.

  `UsuarioRepository` contributes its derived queries `existsByEmail` and `findByEmail`.

Java's nullable references are `Option`s. Thrown exceptions are `Result`/`Outcome`
values, and a call that may change a store returns a `Step` (the new store plus
the result). A store is a `Table`: a map from ids to rows, plus the next
fresh id. Its rows are listed in ascending id order. Money (`BigDecimal`) is an
exact `real`. `LocalDate.now()` is a `today` parameter. The date comparison
of the windowed queries is a caller-supplied `WindowTest`.

Modules, one per file:

- `Wrappers` holds `Option`, `Result` and `Outcome`.
- `Errors` holds the exceptions and `Step`.
- `Entities` holds `Release`, `User`, the enums and `OwnedBy`.
- `JavaText` holds `String.trim` and `Integer.toString`.
- `Table` is the generic id-keyed store.
- `ReleaseRepository` and `UserRepository` are the two stores and their queries.
- `ReleaseService` and `UserService` are the two services.

Where the documented behaviour and the code differ, the code is followed:

- The user rule of `validar` only checks that the release has a user with a
  non-null id. It does not check that this user exists.
- `atualizar` saves the release as passed in, including its registration
  date. Nothing keeps the stored date.

## Model

| member | source | states |
|---|---|---|
| JavaText.Trim | src/main/java/com/dev/minhasfinancas/service/impl/LancamentoServiceImpl.java:113 | `trim()` starts right after the leading characters ≤ U+0020, leaves only such characters after it, and neither starts nor ends with one |
| JavaText.TrimEmptyIff | src/main/java/com/dev/minhasfinancas/service/impl/LancamentoServiceImpl.java:113 | `trim().equals("")` holds exactly when every character is ≤ U+0020, the empty string included |
| JavaText.IntToString | src/main/java/com/dev/minhasfinancas/service/impl/LancamentoServiceImpl.java:121 | `Integer.toString` is never empty and starts with a minus sign exactly for negative numbers |
| JavaText.IntToStringRoundTrip | src/main/java/com/dev/minhasfinancas/service/impl/LancamentoServiceImpl.java:121 | reading the rendering back gives the original integer, so the rendering is the decimal notation |
| JavaText.NatToStringLength | src/main/java/com/dev/minhasfinancas/service/impl/LancamentoServiceImpl.java:121 | a natural number renders in at most k digits exactly when it is below 10^k |
| JavaText.RenderedInFourChars | src/main/java/com/dev/minhasfinancas/service/impl/LancamentoServiceImpl.java:121 | `toString().length() == 4` holds exactly for 1000..9999 and for -999..-100, where the sign is the fourth character |
| ReleaseService.Validate | src/main/java/com/dev/minhasfinancas/service/impl/LancamentoServiceImpl.java:112-136 | passes exactly when all six rules hold; otherwise it names a broken rule, and every rule checked before that one holds, so only the first broken rule is reported. The description and year checks are tied to the source's `trim` and `toString().length()` tests by the next two rows |
| ReleaseService.DescriptionRuleIsTrim | src/main/java/com/dev/minhasfinancas/service/impl/LancamentoServiceImpl.java:113-115 | the source's test `descricao == null \|\| descricao.trim().equals("")` rejects exactly the releases the description rule rejects (no character above U+0020) |
| ReleaseService.YearRuleIsFourChars | src/main/java/com/dev/minhasfinancas/service/impl/LancamentoServiceImpl.java:121-123 | the source's test `ano == null \|\| ano.toString().length() != 4` rejects exactly the releases the year rule rejects, so the rule accepts exactly 1000..9999 and -999..-100 |
| ReleaseService.MessagesDistinct | src/main/java/com/dev/minhasfinancas/service/impl/LancamentoServiceImpl.java:113-135 | the six exception messages are pairwise different, so the message identifies the broken rule |
| ReleaseService.ValidateIgnoresBookkeeping | src/main/java/com/dev/minhasfinancas/service/impl/LancamentoServiceImpl.java:112-136 | the verdict does not depend on the id, the status or the registration date |
| ReleaseService.ValidationScenarioDescription | src/test/java/com/dev/minhasfinancas/service/ReleaseServiceTest.java:175-183 | the test's walk-through, first steps: a release with no description or with `""` is rejected for its description, and so (beyond the test) is one with only blanks |
| ReleaseService.ValidationScenarioPeriod | src/test/java/com/dev/minhasfinancas/service/ReleaseServiceTest.java:185-207 | with a description set: a missing month, month 0 and month 13 are rejected for the month; then a missing year and year 202 are rejected for the year; year 2020 passes on to the user rule, and so (beyond the test) does -100 |
| ReleaseService.ValidationScenarioOwnerValueType | src/test/java/com/dev/minhasfinancas/service/ReleaseServiceTest.java:209-224 | a user without an id is rejected for the user; a missing value and value 0 are rejected for the value; value 1 passes on to the type rule; the completed release passes |
| ReleaseService.Create | src/main/java/com/dev/minhasfinancas/service/impl/LancamentoServiceImpl.java:44-49 | an invalid release raises the first rule's message and leaves the store unchanged. A valid one is stored once under its id (or a fresh one), as pending and dated today, with every other field as given. A store of valid releases stays valid |
| ReleaseService.Update | src/main/java/com/dev/minhasfinancas/service/impl/LancamentoServiceImpl.java:53-57 | a null id raises a null pointer before validation, with the store unchanged. An invalid release raises the rule's message, with the store unchanged. Otherwise exactly the row under its id becomes the release |
| ReleaseService.Delete | src/main/java/com/dev/minhasfinancas/service/impl/LancamentoServiceImpl.java:61-64 | a null id raises a null pointer and nothing is deleted; otherwise exactly the row with that id is removed |
| ReleaseService.UpdateStatus | src/main/java/com/dev/minhasfinancas/service/impl/LancamentoServiceImpl.java:106-109 | the release with only its status changed goes through the whole update path: null id first, then validation, then exactly one row replaced |
| ReleaseService.FindById | src/main/java/com/dev/minhasfinancas/service/impl/LancamentoServiceImpl.java:139-141 | finds a release exactly when its id is stored, and returns that row |
| ReleaseService.CreateThenFind | src/test/java/com/dev/minhasfinancas/model/repository/LancamentoRepositoryTest.java:70-77 | a release `salvar` accepts is found again under its saved id; every other id, and every id after a rejection, finds what it found before |
| ReleaseService.UpdateThenFind | src/test/java/com/dev/minhasfinancas/model/repository/LancamentoRepositoryTest.java:53-68 | a release `atualizar` accepts is found under its own id exactly as given; every other id, and every id after a failure, finds what it found before |
| ReleaseService.DeleteThenFind | src/test/java/com/dev/minhasfinancas/model/repository/LancamentoRepositoryTest.java:42-51 | after `deletar` the deleted id finds nothing; every other id finds what it found before |
| ReleaseService.RecentReleases | src/main/java/com/dev/minhasfinancas/service/impl/LancamentoServiceImpl.java:78-84 | exactly the user's stored releases inside the trailing 30-day window, with ids strictly descending |
| ReleaseService.Extract | src/main/java/com/dev/minhasfinancas/service/impl/LancamentoServiceImpl.java:88-91 | with a null sum read as zero, the extract equals the sum of the values of the user's settled releases of that type in the window |
| ReleaseService.ExtractBounds | src/main/java/com/dev/minhasfinancas/service/impl/LancamentoServiceImpl.java:88-91 | the extract is 0 when no release is counted. Over valid releases it is never negative, and it is positive exactly when some release is counted |
| ReleaseService.Balance | src/main/java/com/dev/minhasfinancas/service/impl/LancamentoServiceImpl.java:145-156 | the balance is the income extract minus the expense extract over the same store and window |
| ReleaseService.ReleasesPaginated | src/main/java/com/dev/minhasfinancas/service/impl/LancamentoServiceImpl.java:95-103 | an unknown user gets the empty page with total 0. A known user gets exactly their stored releases, sorted by (ano, mes, id) descending, with a total equal both to the content's length and to the number of the user's stored ids |
| ReleaseService.CreateKeepsAggregates | src/main/java/com/dev/minhasfinancas/service/impl/LancamentoServiceImpl.java:44-49 | creating a new release changes no extract and no balance, because it is stored as pending |
| ReleaseService.SettleMovesExtract | src/main/java/com/dev/minhasfinancas/service/impl/LancamentoServiceImpl.java:106-109 | settling a stored pending valid release inside the window raises the extract of its own type by its value and leaves the other type's extract unchanged |
| ReleaseService.SettleMovesBalance | src/main/java/com/dev/minhasfinancas/service/impl/LancamentoServiceImpl.java:106-109 | settling such a release moves the balance up by its value for income and down by its value for expense |
| ReleaseRepository.Save | src/main/java/com/dev/minhasfinancas/service/impl/LancamentoServiceImpl.java:48 | `save` without an id stores under a fresh id; with an id it stores under that id. Either way, only that one row changes |
| ReleaseRepository.Delete | src/main/java/com/dev/minhasfinancas/service/impl/LancamentoServiceImpl.java:63 | `delete` removes exactly the row with the entity's id |
| ReleaseRepository.FindById | src/main/java/com/dev/minhasfinancas/service/impl/LancamentoServiceImpl.java:140 | `findById` is present exactly for stored ids and returns that row |
| ReleaseRepository.SumByOwnerTypeStatus | src/main/java/com/dev/minhasfinancas/model/repository/LancamentoRepository.java:19-27 | the sum is null exactly when no release of that owner, type and status (with a value) is counted; otherwise it is the total of the counted values |
| ReleaseRepository.TotalReplace | src/main/java/com/dev/minhasfinancas/model/repository/LancamentoRepository.java:23-27 | replacing one row changes the sum by the new row's contribution minus the old row's |
| ReleaseRepository.TotalPositive | src/main/java/com/dev/minhasfinancas/model/repository/LancamentoRepository.java:23-27 | with positive values only, the sum is never negative, and it is positive once any row is counted |
| ReleaseRepository.TotalAfterInsert | src/main/java/com/dev/minhasfinancas/model/repository/LancamentoRepository.java:23-27 | saving a new release adds exactly its contribution to every sum |
| ReleaseRepository.TotalAfterOverwrite | src/main/java/com/dev/minhasfinancas/model/repository/LancamentoRepository.java:23-27 | saving over a stored release changes every sum by the new row's contribution minus the old one's |
| ReleaseRepository.LastReleases | src/main/java/com/dev/minhasfinancas/model/repository/LancamentoRepository.java:29-30 | exactly the stored releases of the user that the window admits, ordered by id strictly descending |
| ReleaseRepository.SortByPeriod | src/main/java/com/dev/minhasfinancas/service/impl/LancamentoServiceImpl.java:99 | the result is sorted by (ano, mes, id) descending and is a permutation of the input |
| ReleaseRepository.FindAllByOwner | src/main/java/com/dev/minhasfinancas/model/repository/LancamentoRepository.java:21-34 | the content is exactly the user's stored releases, sorted. The count query's total is the number of the user's stored ids, which equals the content's length |
| UserRepository.Save | src/main/java/com/dev/minhasfinancas/service/impl/UsuarioServiceImpl.java:48 | `save` without an id stores under a fresh id; with an id it stores under that id. Only that row changes |
| UserRepository.FindById | src/main/java/com/dev/minhasfinancas/service/impl/UsuarioServiceImpl.java:61 | `findById` is present exactly for stored ids and returns that row |
| UserRepository.ExistsByEmail | src/main/java/com/dev/minhasfinancas/model/repository/UsuarioRepository.java:11 | true exactly when some stored user has that email. A null email matches users without one |
| UserRepository.FindByEmail | src/main/java/com/dev/minhasfinancas/model/repository/UsuarioRepository.java:13 | empty exactly when no user has the email, and an error exactly when two users share it. Otherwise it is the one stored user with that email |
| UserService.Authenticate | src/main/java/com/dev/minhasfinancas/service/impl/UsuarioServiceImpl.java:26-42 | "not found" exactly when no user has the email. When exactly one user has the email: success with their id, name and email exactly when the passwords are equal; "Senha inválida." exactly when a stored password differs; a null pointer for a null stored password. When two users share the email, the lookup's non-unique-result error comes back instead |
| UserService.ValidateEmail | src/main/java/com/dev/minhasfinancas/service/impl/UsuarioServiceImpl.java:52-57 | passes exactly when no stored user has the email; otherwise it raises the "already registered" business error |
| UserService.SaveUser | src/main/java/com/dev/minhasfinancas/service/impl/UsuarioServiceImpl.java:46-49 | a taken email raises before saving, with the store unchanged. Otherwise the user is stored under its id or a fresh one and returned. Emails stay unique |
| UserService.RegisterThenAuthenticate | src/main/java/com/dev/minhasfinancas/service/impl/UsuarioServiceImpl.java:26-49 | after registering with a free email, logging in with the same password returns the saved user's identity, and any other password is refused |
| UserService.GetById | src/main/java/com/dev/minhasfinancas/service/impl/UsuarioServiceImpl.java:60-62 | present exactly for stored ids, returning that user |
| UserService.SaveUserThenGetById | src/main/java/com/dev/minhasfinancas/service/impl/UsuarioServiceImpl.java:46-62 | a user `salvarUsuario` accepts is found by `getById` under its saved id; every other id, and every id after a refusal, finds what it found before |

## Left out

- `buscar` (filtered search): its meaning is Spring's `Example`/`ExampleMatcher` matching (ignore case, substring, null fields ignored), which lives in a library outside this model.
- The `ReleasesDTO` conversion of `lastReleases` and of the paginated `findAll` projection. The DTO leaves out `dataCadastro` and carries the owner's id (`userId`) in place of the user. The model returns the releases themselves, whose other fields the DTO copies unchanged.
- ReleaseService.ReleasesPaginated: states the whole sorted content of the user's releases, not the `PageRequest.of(page, size)` slice. Page arithmetic belongs to Spring Data.
- ReleaseRepository.SumByOwnerTypeStatus: the 30-day window is a caller-supplied test (`WindowTest`), so its boundary days are not modelled. The repository interface as written declares no date parameters, while the service passes two dates.
- ReleaseRepository.LastReleases: the window is likewise a caller-supplied test.
- `LocalDate.now()` is the `today` parameter. `obterSaldoPorUsuario` reads the clock four times, so a call that spans midnight could use two different windows; the model reads one `today` for the whole call.
- ReleaseService.UpdateStatus: `atualizarStatus` sets the status on the caller's own object before the id check and validation run. The caller sees the new status even when the update then fails. The model has no shared objects; it returns only the store and the outcome.
- ReleaseService.Create: `salvar` sets status and registration date on the caller's own object once validation passes, and the saved entity is that same object. The model returns this updated release as the result; it does not model the aliasing.
- ReleaseRepository.PeriodBefore: a missing year or month sorts as 0 here. Where SQL puts NULL in a descending sort depends on the database. Stored releases pass validation, so they always carry both fields.
- ReleaseService.ReleasesPaginated: `PageRequest.of` throws for a negative page, a size below 1, or null `page`/`size`. Those errors are not modelled, since the page arguments are not modelled.
- Transactions (`@Transactional`) and JPA persistence. For an id that is not stored, `save` here creates the row under that id; Hibernate's merge may assign a new generated id instead.
- Null `Long` id arguments to `getById`, `obterPorId`, the aggregates and the listing: ids are natural numbers here. `Long` overflow of ids is not modelled.
- Null `email`/`password` arguments to `autenticar`; a null email argument to `validarEmail` is modelled, as an `is null` query.
- Java strings are UTF-16 code units; here a string is a sequence of Unicode characters. `trim` only inspects characters up to U+0020, where the two agree.
- `BigDecimal` scale: the code compares values with `compareTo` and adds them, so an exact `real` matches it.
- HTTP controllers, DTO shapes and `Role`: transport plumbing with no domain rules.
- Password hashing: the code compares plain strings, and so does the model.
