/** `LancamentoServiceImpl`: validation, the create/update/delete life
    cycle, lookup, the settled-value aggregates, and the paginated listing of
    a user's releases. */
module ReleaseService {
  import opened Wrappers
  import opened Entities
  import opened Table
  import opened Errors
  import JavaText
  import opened ReleaseRepository
  import UserRepository

  // ---------------------------------------------------------------------
  // Validation
  // ---------------------------------------------------------------------

  /** The six validation rules, named after the field each one checks. */
  datatype Rule = DescriptionRule | MonthRule | YearRule | UserRule | ValueRule | TypeRule

  /** The position of a rule in the order `validar` checks them. */
  function Rank(rule: Rule): nat {
    match rule
    case DescriptionRule => 0
    case MonthRule => 1
    case YearRule => 2
    case UserRule => 3
    case ValueRule => 4
    case TypeRule => 5
  }

  /** The message of the `RegraNegocioException` raised for a broken rule. */
  function Message(rule: Rule): string {
    match rule
    case DescriptionRule => "Informe uma Descrição válida."
    case MonthRule => "Informe um Mês válido."
    case YearRule => "Informe um Ano válido."
    case UserRule => "Informe um Usuário."
    case ValueRule => "Informe um Valor válido."
    case TypeRule => "Informe um Tipo de lançamento."
  }

  /** Every broken rule has its own message, so the message names the rule. */
  lemma MessagesDistinct(a: Rule, b: Rule)
    ensures Message(a) == Message(b) ==> a == b
  {
    // The twelfth character already tells the six messages apart.
    assert |Message(a)| > 11 && |Message(b)| > 11;
    assert a != b ==> Message(a)[11] != Message(b)[11];
  }

  /** What each rule accepts, stated without Java's string operations: a
      description with some character above U+0020 (one `trim` keeps), a month in 1..12, a year
      of four digits or one of -999..-100, a user with an id, a positive
      value, and a type. */
  predicate Satisfies(r: Release, rule: Rule) {
    match rule
    case DescriptionRule =>
      r.description.Some? && exists i :: 0 <= i < |r.description.value| && !JavaText.IsTrimmed(r.description.value[i])
    case MonthRule => r.month.Some? && 1 <= r.month.value <= 12
    case YearRule =>
      r.year.Some? && (1000 <= r.year.value <= 9999 || -999 <= r.year.value <= -100)
    case UserRule => r.user.Some? && r.user.value.id.Some?
    case ValueRule => r.value.Some? && r.value.value > 0.0
    case TypeRule => r.kind.Some?
  }

  /** `validar`: the six checks in the source's order. It passes exactly
      when every rule is satisfied; otherwise it reports the first broken
      rule, even when later rules are broken too. The description and year
      checks are the source's `trim().equals("")` and
      `toString().length() != 4` tests, which `DescriptionRuleIsTrim` and
      `YearRuleIsFourChars` prove equal to the rules checked here. */
  function Validate(r: Release): (o: Outcome<Rule>)
    ensures o == Pass <==> forall rule :: Satisfies(r, rule)
    ensures o.Fail? ==> !Satisfies(r, o.error)
    ensures o.Fail? ==> forall rule :: Rank(rule) < Rank(o.error) ==> Satisfies(r, rule)
  {
    EveryRule(r);
    if !Satisfies(r, DescriptionRule) then Fail(DescriptionRule)
    else if r.month.None? || r.month.value < 1 || r.month.value > 12 then Fail(MonthRule)
    else if !Satisfies(r, YearRule) then Fail(YearRule)
    else if r.user.None? || r.user.value.id.None? then Fail(UserRule)
    else if r.value.None? || r.value.value <= 0.0 then Fail(ValueRule)
    else if r.kind.None? then Fail(TypeRule)
    else Pass
  }

  /** The six rules, one by one. */
  lemma EveryRule(r: Release)
    ensures (forall rule :: Satisfies(r, rule)) <==>
      && Satisfies(r, DescriptionRule) && Satisfies(r, MonthRule) && Satisfies(r, YearRule)
      && Satisfies(r, UserRule) && Satisfies(r, ValueRule) && Satisfies(r, TypeRule)
  {
  }

  /** The description rule is Java's `trim().equals("")` test. */
  lemma DescriptionRuleIsTrim(r: Release)
    ensures Satisfies(r, DescriptionRule) <==> r.description.Some? && JavaText.Trim(r.description.value) != ""
  {
    if r.description.Some? {
      JavaText.TrimEmptyIff(r.description.value);
    }
  }

  /** The year rule is Java's `toString().length() == 4` test. */
  lemma YearRuleIsFourChars(r: Release)
    ensures Satisfies(r, YearRule) <==> r.year.Some? && |JavaText.IntToString(r.year.value)| == 4
  {
    if r.year.Some? {
      JavaText.RenderedInFourChars(r.year.value);
    }
  }

  /** Validation never looks at the id, the status or the registration
      date. */
  lemma ValidateIgnoresBookkeeping(r: Release, id: Option<nat>, status: Option<ReleaseStatus>, registered: Option<Date>)
    ensures Validate(r.(id := id, status := status, registered := registered)) == Validate(r)
  {
    var r' := r.(id := id, status := status, registered := registered);
    assert forall rule :: Satisfies(r', rule) == Satisfies(r, rule);
  }

  /** The validation walk-through of the service's unit test: a blank
      release is filled in one field at a time, and each step reports the
      rule that is now first broken. First the description: absent, empty or
      blank. */
  lemma ValidationScenarioDescription()
    ensures var r0 := EmptyRelease;
      && Validate(r0) == Fail(DescriptionRule)
      && Validate(r0.(description := Some(""))) == Fail(DescriptionRule)
      && Validate(r0.(description := Some(" \t "))) == Fail(DescriptionRule)
  {
    assert !Satisfies(EmptyRelease.(description := Some(" \t ")), DescriptionRule);
  }

  /** The walk-through, month and year: 0 and 13 are rejected months, a
      missing year and 202 are rejected, 2020 passes, and so does -100, whose
      rendering with its sign is four characters long. */
  lemma ValidationScenarioPeriod()
    ensures var r1 := EmptyRelease.(description := Some("Salário"));
      && Validate(r1) == Fail(MonthRule)
      && Validate(r1.(month := Some(0))) == Fail(MonthRule)
      && Validate(r1.(month := Some(13))) == Fail(MonthRule)
      && Validate(r1.(month := Some(1))) == Fail(YearRule)
      && Validate(r1.(month := Some(1), year := Some(202))) == Fail(YearRule)
      && Validate(r1.(month := Some(1), year := Some(2020))) == Fail(UserRule)
      && Validate(r1.(month := Some(1), year := Some(-100))) == Fail(UserRule)
  {
    assert "Salário"[0] > ' ';
  }

  /** The walk-through, user, value and type: a user without an id is
      rejected, a value of 0 is rejected and 1 passes, a missing type is
      rejected, and the completed release passes. */
  lemma ValidationScenarioOwnerValueType()
    ensures var r2 := EmptyRelease.(description := Some("Salário"), month := Some(1), year := Some(2020));
      && Validate(r2.(user := Some(UserRef(None)))) == Fail(UserRule)
      && Validate(r2.(user := Some(UserRef(Some(1))))) == Fail(ValueRule)
      && Validate(r2.(user := Some(UserRef(Some(1))), value := Some(0.0))) == Fail(ValueRule)
      && Validate(r2.(user := Some(UserRef(Some(1))), value := Some(1.0))) == Fail(TypeRule)
      && Validate(r2.(user := Some(UserRef(Some(1))), value := Some(1.0), kind := Some(Receita))) == Pass
  {
    assert "Salário"[0] > ' ';
  }

  /** Every stored release passes validation: the store holds only what
      `Create` and `Update` let through. */
  predicate Persistable(store: ReleaseStore) {
    forall k :: k in store.rows ==> Validate(store.rows[k]) == Pass
  }

  // ---------------------------------------------------------------------
  // Create, update, delete
  // ---------------------------------------------------------------------

  /** The exception `validar` raises for a broken rule. */
  function Rejection(rule: Rule): ServiceError {
    BusinessRule(Message(rule))
  }

  /** `salvar`: validation first; a valid release is saved as pending and
      stamped with today's date, whatever status and date it carried, with
      every other field kept. */
  function Create(store: ReleaseStore, r: Release, today: Date): (s: Step<ReleaseStore, Release>)
    ensures Validate(r).Fail? ==> s == Step(store, Failure(Rejection(Validate(r).error)))
    ensures Validate(r) == Pass ==>
      && s.result.Success?
      && var saved := s.result.value;
      && saved.id.Some?
      && saved == r.(id := saved.id, status := Some(Pendente), registered := Some(today))
      && (r.id.Some? ==> saved.id == r.id)
      && (r.id.None? ==> saved.id.value !in store.rows)
      && s.store.rows == store.rows[saved.id.value := saved]
    ensures Persistable(store) ==> Persistable(s.store)
  {
    match Validate(r)
    case Fail(rule) => Step(store, Failure(Rejection(rule)))
    case Pass =>
      var pending := r.(status := Some(Pendente), registered := Some(today));
      var saved := Save(store, pending);
      ValidateIgnoresBookkeeping(r, saved.row.id, Some(Pendente), Some(today));
      Step(saved.store, Success(saved.row))
  }

  /** `atualizar`: a release without an id fails with a null pointer before
      validation and before the store is touched; otherwise it is validated
      and saved over its id, exactly once. */
  function Update(store: ReleaseStore, r: Release): (s: Step<ReleaseStore, Release>)
    ensures r.id.None? ==> s == Step(store, Failure(NullPointer))
    ensures r.id.Some? && Validate(r).Fail? ==> s == Step(store, Failure(Rejection(Validate(r).error)))
    ensures r.id.Some? && Validate(r) == Pass ==>
      s.result == Success(r) && s.store.rows == store.rows[r.id.value := r]
    ensures Persistable(store) ==> Persistable(s.store)
  {
    if r.id.None? then Step(store, Failure(NullPointer))
    else
      match Validate(r)
      case Fail(rule) => Step(store, Failure(Rejection(rule)))
      case Pass =>
        var saved := Save(store, r);
        Step(saved.store, Success(saved.row))
  }

  /** `deletar`: a release without an id fails with a null pointer and
      nothing is deleted; otherwise exactly the row with its id is removed. */
  function Delete(store: ReleaseStore, r: Release): (s: Step<ReleaseStore, ()>)
    ensures r.id.None? ==> s == Step(store, Failure(NullPointer))
    ensures r.id.Some? ==> s.result == Success(()) && s.store.rows == store.rows - {r.id.value}
    ensures Persistable(store) ==> Persistable(s.store)
  {
    if r.id.None? then Step(store, Failure(NullPointer))
    else Step(ReleaseRepository.Delete(store, r), Success(()))
  }

  /** `atualizarStatus`: sets the status and takes the full update path, so
      the id check and validation run again; only the status differs from
      the release passed in. */
  function UpdateStatus(store: ReleaseStore, r: Release, status: ReleaseStatus): (s: Step<ReleaseStore, ()>)
    ensures r.id.None? ==> s == Step(store, Failure(NullPointer))
    ensures r.id.Some? && Validate(r).Fail? ==> s == Step(store, Failure(Rejection(Validate(r).error)))
    ensures r.id.Some? && Validate(r) == Pass ==>
      s.result == Success(()) && s.store.rows == store.rows[r.id.value := r.(status := Some(status))]
    ensures Persistable(store) ==> Persistable(s.store)
  {
    ValidateIgnoresBookkeeping(r, r.id, Some(status), r.registered);
    var updated := Update(store, r.(status := Some(status)));
    Step(updated.store, if updated.result.Success? then Success(()) else Failure(updated.result.error))
  }

  /** `obterPorId`: the stored release, or none; never an error. */
  function FindById(store: ReleaseStore, id: nat): (r: Option<Release>)
    ensures r.Some? <==> id in store.rows
    ensures r.Some? ==> r.value == store.rows[id]
  {
    ReleaseRepository.FindById(store, id)
  }

  /** `salvar` then `obterPorId`: an accepted release is found again under
      the id it was saved with; every other id, and every id after a
      rejected release, finds what it found before. */
  lemma CreateThenFind(store: ReleaseStore, r: Release, today: Date, other: nat)
    ensures var s := Create(store, r, today);
      && (s.result.Success? ==> FindById(s.store, s.result.value.id.value) == Some(s.result.value))
      && (s.result.Failure? || other != s.result.value.id.value ==>
            FindById(s.store, other) == FindById(store, other))
  {
  }

  /** `atualizar` then `obterPorId`: an accepted release is found under its
      own id as given; nothing else changes. */
  lemma UpdateThenFind(store: ReleaseStore, r: Release, other: nat)
    ensures var s := Update(store, r);
      && (s.result.Success? ==> r.id.Some? && FindById(s.store, r.id.value) == Some(r))
      && (s.result.Failure? || other != r.id.value ==>
            FindById(s.store, other) == FindById(store, other))
  {
  }

  /** `deletar` then `obterPorId`: the deleted id finds nothing any more;
      every other id finds what it found before. */
  lemma DeleteThenFind(store: ReleaseStore, r: Release, other: nat)
    ensures var s := Delete(store, r);
      && (r.id.Some? ==> FindById(s.store, r.id.value) == None)
      && (r.id.None? || other != r.id.value ==> FindById(s.store, other) == FindById(store, other))
  {
  }

  // ---------------------------------------------------------------------
  // Extract and balance
  // ---------------------------------------------------------------------

  /** The window the service passes to the store: thirty days back from today
      up to today. */
  function TrailingWindow(today: Date): DateRange {
    DateRange(Date(today.epochDay - 30), today)
  }

  /** The filter for the settled releases of one user and type. */
  function SettledFilter(userId: nat, kind: ReleaseType, today: Date): SumFilter {
    SumFilter(userId, kind, Efetivado, TrailingWindow(today))
  }

  /** `lastReleases` of the service: the store query over the trailing
      thirty-day window, so exactly the user's releases the window admits,
      newest id first. */
  function RecentReleases(store: ReleaseStore, userId: nat, today: Date, inWindow: WindowTest): (r: seq<Release>)
    ensures forall x :: x in r <==>
      Stored(store, x) && OwnedBy(x, userId) && inWindow(TrailingWindow(today), x)
    ensures forall i, j :: 0 <= i < j < |r| ==> IdOf(r[i]) > IdOf(r[j])
  {
    LastReleases(store, userId, TrailingWindow(today), inWindow)
  }

  /** `getExtractByReleaseType`: the settled total of one type for the user,
      with an absent sum read as zero, so it always equals the total of the
      counted values (zero when nothing is counted). */
  function Extract(store: ReleaseStore, userId: nat, kind: ReleaseType, today: Date, inWindow: WindowTest): (r: real)
    ensures r == Total(Rows(store), SettledFilter(userId, kind, today), inWindow)
  {
    var f := SettledFilter(userId, kind, today);
    var sum := SumByOwnerTypeStatus(store, f, inWindow);
    if sum.None? then
      RowsAreStored(store);
      TotalNothingCounted(Rows(store), f, inWindow);
      0.0
    else sum.value
  }

  /** An extract with no settled release of that type and user is exactly
      zero; over a store of valid releases an extract is never negative, and
      is positive exactly when some settled release is counted. */
  lemma ExtractBounds(store: ReleaseStore, userId: nat, kind: ReleaseType, today: Date, inWindow: WindowTest)
    ensures var f := SettledFilter(userId, kind, today);
      (forall k :: k in store.rows ==> !Counted(store.rows[k], f, inWindow)) ==>
        Extract(store, userId, kind, today, inWindow) == 0.0
    ensures var f := SettledFilter(userId, kind, today);
      Persistable(store) ==>
        && Extract(store, userId, kind, today, inWindow) >= 0.0
        && (Extract(store, userId, kind, today, inWindow) > 0.0 <==>
            exists k :: k in store.rows && Counted(store.rows[k], f, inWindow))
  {
    var f := SettledFilter(userId, kind, today);
    RowsAreStored(store);
    if forall k :: k in store.rows ==> !Counted(store.rows[k], f, inWindow) {
      TotalNothingCounted(Rows(store), f, inWindow);
    }
    if Persistable(store) {
      TotalOfValidRows(store, f, inWindow);
    }
  }

  lemma TotalOfValidRows(store: ReleaseStore, f: SumFilter, inWindow: WindowTest)
    requires Persistable(store)
    ensures Total(Rows(store), f, inWindow) >= 0.0
    ensures (exists k :: k in store.rows && Counted(store.rows[k], f, inWindow)) ==> Total(Rows(store), f, inWindow) > 0.0
  {
    var rs := Rows(store);
    ValidRowsPositive(store);
    TotalPositive(rs, f, inWindow);
    if exists k :: k in store.rows && Counted(store.rows[k], f, inWindow) {
      var k :| k in store.rows && Counted(store.rows[k], f, inWindow);
      var i := RowIndex(store, k);
    }
  }

  /** Where the row stored under `k` sits in `Rows`. */
  lemma RowIndex(store: ReleaseStore, k: nat) returns (i: nat)
    requires k in store.rows
    ensures i < |Rows(store)| && Rows(store)[i] == store.rows[k]
  {
    RowsAreStored(store);
    assert store.rows[k] in Rows(store);
    i :| i < |Rows(store)| && Rows(store)[i] == store.rows[k];
  }

  /** In a store of valid releases every listed row has a positive value. */
  lemma ValidRowsPositive(store: ReleaseStore)
    requires Persistable(store)
    ensures forall i :: 0 <= i < |Rows(store)| ==> Rows(store)[i].value.Some? && Rows(store)[i].value.value > 0.0
  {
    var rs := Rows(store);
    forall i | 0 <= i < |rs| ensures rs[i].value.Some? && rs[i].value.value > 0.0 {
      var ks := Keys(store);
      assert rs[i] == store.rows[ks[i]] by {
        assert ks[i] in ks;
      }
      assert ks[i] in store.rows;
      assert Validate(store.rows[ks[i]]) == Pass;
      assert Satisfies(rs[i], ValueRule);
    }
  }

  lemma {:induction false} TotalNothingCounted(rs: seq<Release>, f: SumFilter, inWindow: WindowTest)
    requires forall i :: 0 <= i < |rs| ==> !Counted(rs[i], f, inWindow)
    ensures Total(rs, f, inWindow) == 0.0
  {
    if rs != [] {
      TotalNothingCounted(rs[..|rs| - 1], f, inWindow);
    }
  }

  /** `obterSaldoPorUsuario`: settled income minus settled expense, each sum
      read as zero when absent; the same as the income extract minus the
      expense extract over the same window. */
  function Balance(store: ReleaseStore, userId: nat, today: Date, inWindow: WindowTest): (r: real)
    ensures r == Extract(store, userId, Receita, today, inWindow) - Extract(store, userId, Despesa, today, inWindow)
  {
    var income := SumByOwnerTypeStatus(store, SettledFilter(userId, Receita, today), inWindow);
    var expense := SumByOwnerTypeStatus(store, SettledFilter(userId, Despesa, today), inWindow);
    var income' := if income.None? then 0.0 else income.value;
    var expense' := if expense.None? then 0.0 else expense.value;
    income' - expense'
  }

  // ---------------------------------------------------------------------
  // Paginated listing
  // ---------------------------------------------------------------------

  /** `getReleasesPaginated` before slicing: an unknown user gets an empty
      page with total zero and the release store is not queried; a known
      user gets all of their releases, sorted by (ano, mes, id) descending,
      and a total that counts exactly those releases. */
  function ReleasesPaginated(users: UserRepository.UserStore, store: ReleaseStore, userId: nat): (p: Page)
    ensures userId !in users.rows ==> p == EmptyPage
    ensures userId in users.rows ==>
      && (forall x :: x in p.content <==> Stored(store, x) && OwnedBy(x, userId))
      && SortedByPeriod(p.content)
      && p.totalElements == |p.content| == |OwnedIds(store, userId)|
  {
    match UserRepository.FindById(users, userId)
    case None => EmptyPage
    case Some(user) => FindAllByOwner(store, user.id.value)
  }

  // ---------------------------------------------------------------------
  // How the life cycle moves the aggregates
  // ---------------------------------------------------------------------

  /** Creating a release never changes an extract or the balance: a new
      release is pending, and only settled releases are counted. */
  lemma CreateKeepsAggregates(store: ReleaseStore, r: Release, today: Date, userId: nat, when: Date, inWindow: WindowTest)
    requires r.id.None?
    ensures var after := Create(store, r, today).store;
      && Extract(after, userId, Receita, when, inWindow) == Extract(store, userId, Receita, when, inWindow)
      && Extract(after, userId, Despesa, when, inWindow) == Extract(store, userId, Despesa, when, inWindow)
      && Balance(after, userId, when, inWindow) == Balance(store, userId, when, inWindow)
  {
    if Validate(r) == Pass {
      var pending := r.(status := Some(Pendente), registered := Some(today));
      TotalAfterInsert(store, pending, SettledFilter(userId, Receita, when), inWindow);
      TotalAfterInsert(store, pending, SettledFilter(userId, Despesa, when), inWindow);
    }
  }

  /** Settling a stored pending release of the user moves the balance up by
      its value for income and down by its value for expense. */
  lemma SettleMovesBalance(store: ReleaseStore, r: Release, today: Date, inWindow: WindowTest)
    requires Stored(store, r) && Validate(r) == Pass
    requires r.status == Some(Pendente)
    requires inWindow(TrailingWindow(today), r.(status := Some(Efetivado)))
    ensures Balance(UpdateStatus(store, r, Efetivado).store, r.user.value.id.value, today, inWindow)
         == Balance(store, r.user.value.id.value, today, inWindow)
            + (if r.kind == Some(Receita) then r.value.value else -r.value.value)
  {
    ValidShape(r);
    var after := UpdateStatus(store, r, Efetivado).store;
    SettleMovesExtract(store, r, Receita, today, inWindow);
    SettleMovesExtract(store, r, Despesa, today, inWindow);
    BalanceShift(store, after, r.user.value.id.value, r.kind.value, r.value.value, today, inWindow);
  }

  lemma BalanceShift(before: ReleaseStore, after: ReleaseStore, userId: nat, kind: ReleaseType, v: real, today: Date, inWindow: WindowTest)
    requires Extract(after, userId, Receita, today, inWindow)
          == Extract(before, userId, Receita, today, inWindow) + (if kind == Receita then v else 0.0)
    requires Extract(after, userId, Despesa, today, inWindow)
          == Extract(before, userId, Despesa, today, inWindow) + (if kind == Despesa then v else 0.0)
    ensures Balance(after, userId, today, inWindow)
         == Balance(before, userId, today, inWindow) + (if kind == Receita then v else -v)
  {
  }

  /** A release that passes validation has every field the aggregates read. */
  lemma ValidShape(r: Release)
    requires Validate(r) == Pass
    ensures r.kind.Some? && r.value.Some? && r.user.Some? && r.user.value.id.Some?
  {
    assert Satisfies(r, TypeRule) && Satisfies(r, ValueRule) && Satisfies(r, UserRule);
  }

  /** Settling `r` raises the extract of its own type by its value and leaves
      the extract of the other type alone. */
  lemma SettleMovesExtract(store: ReleaseStore, r: Release, kind: ReleaseType, today: Date, inWindow: WindowTest)
    requires Stored(store, r) && Validate(r) == Pass
    requires r.status == Some(Pendente)
    requires inWindow(TrailingWindow(today), r.(status := Some(Efetivado)))
    ensures var userId := r.user.value.id.value;
      Extract(UpdateStatus(store, r, Efetivado).store, userId, kind, today, inWindow)
      == Extract(store, userId, kind, today, inWindow) + (if r.kind == Some(kind) then r.value.value else 0.0)
  {
    var f := SettledFilter(r.user.value.id.value, kind, today);
    var settled := r.(status := Some(Efetivado));
    assert Satisfies(r, UserRule) && Satisfies(r, ValueRule);
    SettleMovesTotal(store, r, f, inWindow);
    assert Contribution(settled, f, inWindow) == if r.kind == Some(kind) then r.value.value else 0.0;
  }

  /** Settling `r` changes a settled total by `r`'s contribution once
      settled. */
  lemma SettleMovesTotal(store: ReleaseStore, r: Release, f: SumFilter, inWindow: WindowTest)
    requires Stored(store, r) && Validate(r) == Pass
    requires r.status == Some(Pendente) && f.status == Efetivado
    ensures var settled := r.(status := Some(Efetivado));
      Total(Rows(UpdateStatus(store, r, Efetivado).store), f, inWindow)
      == Total(Rows(store), f, inWindow) + Contribution(settled, f, inWindow)
  {
    var settled := r.(status := Some(Efetivado));
    ValidateIgnoresBookkeeping(r, r.id, Some(Efetivado), r.registered);
    assert UpdateStatus(store, r, Efetivado).store.rows == Save(store, settled).store.rows;
    assert UpdateStatus(store, r, Efetivado).store == Save(store, settled).store;
    TotalAfterOverwrite(store, settled, f, inWindow);
    assert Contribution(store.rows[r.id.value], f, inWindow) == 0.0;
  }
}
