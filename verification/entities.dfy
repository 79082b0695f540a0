/** The persistent entities of the finance domain. Every field that is a
    nullable reference in the Java entities is an `Option` here. */
module Entities {
  import opened Wrappers

  /** Java's `Integer` range. */
  type Int32 = x: int | -0x8000_0000 <= x < 0x8000_0000

  /** `TipoLancamentoEnum`: income or expense. */
  datatype ReleaseType = Receita | Despesa

  /** `StatusLancamentoEnum`. Only `Efetivado` (settled) releases count
      towards an extract or a balance. */
  datatype ReleaseStatus = Pendente | Efetivado | Cancelado

  /** A calendar day (`LocalDate`), counted in days from an arbitrary origin. */
  datatype Date = Date(epochDay: int)

  /** An interval of days passed to the windowed store queries. */
  datatype DateRange = DateRange(from: Date, to: Date)

  /** The `Usuario` a release points at. Release logic only ever reads its id. */
  datatype UserRef = UserRef(id: Option<nat>)

  /** A financial entry (`Release`, table `lancamento`). */
  datatype Release = Release(
    id: Option<nat>,
    description: Option<string>,
    month: Option<Int32>,
    year: Option<Int32>,
    user: Option<UserRef>,
    value: Option<real>,
    kind: Option<ReleaseType>,
    status: Option<ReleaseStatus>,
    registered: Option<Date>)

  /** `new Release()`: every field null. */
  const EmptyRelease := Release(None, None, None, None, None, None, None, None, None)

  /** A registered user (`Usuario`). */
  datatype User = User(id: Option<nat>, name: Option<string>, email: Option<string>, password: Option<string>)

  /** Whether a release falls inside a date window. The windowed store
      queries compare dates in query text that is not part of this model, so
      callers supply this test. */
  type WindowTest = (DateRange, Release) -> bool

  /** The release references a user whose id is `userId`; this is the
      `l.usuario.id = :userId` condition of the store queries. */
  predicate OwnedBy(r: Release, userId: nat) {
    r.user.Some? && r.user.value.id == Some(userId)
  }
}
