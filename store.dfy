/**
 * The in-memory reminder store: the document's "lembretes" list and the
 * operations `listar`, `adicionar`, `atualizar` and `remover` over it.
 */
module Reminders {
  import opened Wrappers
  import Text

  /** One entry of "lembretes"; the field names are the document's keys. */
  datatype Reminder = Reminder(
    id: int,
    texto: string,
    horario: string,
    ativo: bool,
    ultimoDisparoEm: Option<string>)

  /** The keyword arguments given to `atualizar`: each present field replaces the stored one. */
  datatype Patch = Patch(
    texto: Option<string>,
    horario: Option<string>,
    ativo: Option<bool>,
    ultimoDisparoEm: Option<Option<string>>)

  /** The `KeyError` that `atualizar` raises for an unknown id. */
  datatype StoreError = NotFound(id: int)

  /** `dict.update(campos)` on one record: the given fields take their new values, the id and the rest are kept. */
  function Apply(r: Reminder, p: Patch): (x: Reminder)
    ensures x.id == r.id
    ensures p.texto.Some? ==> x.texto == p.texto.value
    ensures p.texto.None? ==> x.texto == r.texto
    ensures p.horario.Some? ==> x.horario == p.horario.value
    ensures p.horario.None? ==> x.horario == r.horario
    ensures p.ativo.Some? ==> x.ativo == p.ativo.value
    ensures p.ativo.None? ==> x.ativo == r.ativo
    ensures p.ultimoDisparoEm.Some? ==> x.ultimoDisparoEm == p.ultimoDisparoEm.value
    ensures p.ultimoDisparoEm.None? ==> x.ultimoDisparoEm == r.ultimoDisparoEm
  {
    Reminder(
      r.id,
      p.texto.GetOr(r.texto),
      p.horario.GetOr(r.horario),
      p.ativo.GetOr(r.ativo),
      p.ultimoDisparoEm.GetOr(r.ultimoDisparoEm))
  }

  predicate HasId(rs: seq<Reminder>, id: int) {
    exists k | 0 <= k < |rs| :: rs[k].id == id
  }

  /** `k` is the first position holding `id`, the record a front-to-back search stops at. */
  predicate IsFirstWithId(rs: seq<Reminder>, k: int, id: int) {
    && 0 <= k < |rs|
    && rs[k].id == id
    && forall j | 0 <= j < k :: rs[j].id != id
  }

  /** Ids are pairwise distinct (an assumption some lemmas make, never a guarantee of the store). */
  predicate UniqueIds(rs: seq<Reminder>) {
    forall i, j | 0 <= i < j < |rs| :: rs[i].id != rs[j].id
  }

  /** The position of the first record with `id`, if any. */
  function IndexOfId(rs: seq<Reminder>, id: int): (r: Option<nat>)
    ensures r.Some? ==> IsFirstWithId(rs, r.value, id)
    ensures r.None? <==> !HasId(rs, id)
  {
    if rs == [] then None
    else if rs[0].id == id then Some(0)
    else match IndexOfId(rs[1..], id)
      case None => None
      case Some(j) => Some(j + 1)
  }

  /** The list after `atualizar(id, **campos)`: only the first record with `id` is patched. */
  function UpdateFirst(rs: seq<Reminder>, id: int, p: Patch): (r: seq<Reminder>)
    ensures |r| == |rs|
    ensures forall k | 0 <= k < |rs| :: r[k] == if IsFirstWithId(rs, k, id) then Apply(rs[k], p) else rs[k]
  {
    match IndexOfId(rs, id)
    case None => rs
    case Some(j) => rs[j := Apply(rs[j], p)]
  }

  /** The list comprehension of `remover`: the records whose id differs, in their order. */
  function WithoutId(rs: seq<Reminder>, id: int): (r: seq<Reminder>)
    ensures forall x :: x in r <==> x in rs && x.id != id
    ensures !HasId(rs, id) ==> r == rs
    ensures |r| <= |rs|
  {
    if rs == [] then []
    else (if rs[0].id != id then [rs[0]] else []) + WithoutId(rs[1..], id)
  }

  /** Filtering distributes over concatenation, so relative order is kept. */
  lemma {:induction false} WithoutIdAppend(a: seq<Reminder>, b: seq<Reminder>, id: int)
    ensures WithoutId(a + b, id) == WithoutId(a, id) + WithoutId(b, id)
  {
    if a != [] {
      assert (a + b)[1..] == a[1..] + b;
      WithoutIdAppend(a[1..], b, id);
    } else {
      assert a + b == b;
    }
  }

  /** Removing an id twice is removing it once. */
  lemma WithoutIdIdempotent(rs: seq<Reminder>, id: int)
    ensures WithoutId(WithoutId(rs, id), id) == WithoutId(rs, id)
  {
  }

  lemma AppendFreshKeepsUnique(rs: seq<Reminder>, item: Reminder)
    requires UniqueIds(rs) && !HasId(rs, item.id)
    ensures UniqueIds(rs + [item])
  {
  }

  class Store {
    /** `dados["lembretes"]`; a document without that key behaves as the empty list. */
    var reminders: seq<Reminder>

    /** The store over the list that loading produced (the empty list for a missing or unreadable file). */
    constructor (loaded: seq<Reminder>)
      ensures reminders == loaded
    {
      reminders := loaded;
    }

    /** `listar`: the records in insertion order. */
    function List(): (r: seq<Reminder>)
      reads this
      ensures r == reminders
    {
      reminders
    }

    /** `adicionar`: appends one new record, its text and time stripped and never fired. */
    method Add(id: int, texto: string, horario: string, ativo: bool) returns (item: Reminder)
      modifies this
      ensures item == Reminder(id, Text.Strip(texto), Text.Strip(horario), ativo, None)
      ensures reminders == old(reminders) + [item]
      ensures UniqueIds(old(reminders)) && !HasId(old(reminders), id) ==> UniqueIds(reminders)
    {
      item := Reminder(id, Text.Strip(texto), Text.Strip(horario), ativo, None);
      if UniqueIds(reminders) && !HasId(reminders, id) {
        AppendFreshKeepsUnique(reminders, item);
      }
      reminders := reminders + [item];
    }

    /** `atualizar`: patches the first record with `id` and returns it, or fails and changes nothing. */
    method Update(id: int, p: Patch) returns (r: Result<Reminder, StoreError>)
      modifies this
      ensures reminders == UpdateFirst(old(reminders), id, p)
      ensures r.Err? <==> !HasId(old(reminders), id)
      ensures r.Err? ==> r.error == NotFound(id)
      ensures r.Ok? ==> exists k :: IsFirstWithId(old(reminders), k, id) && r.value == Apply(old(reminders)[k], p)
    {
      var i := 0;
      while i < |reminders|
        invariant 0 <= i <= |reminders|
        invariant reminders == old(reminders)
        invariant forall k | 0 <= k < i :: reminders[k].id != id
      {
        if reminders[i].id == id {
          var updated := Apply(reminders[i], p);
          assert IsFirstWithId(reminders, i, id);
          reminders := reminders[i := updated];
          return Ok(updated);
        }
        i := i + 1;
      }
      return Err(NotFound(id));
    }

    /** `remover`: drops every record with `id`; absent ids are not an error. */
    method Remove(id: int)
      modifies this
      ensures reminders == WithoutId(old(reminders), id)
    {
      reminders := WithoutId(reminders, id);
    }

    /** Sets the fired mark of the record at position `i` itself (used by the corrected poll). */
    method MarkFiredAt(i: nat, today: string)
      requires i < |reminders|
      modifies this
      ensures reminders == old(reminders)[i := old(reminders)[i].(ultimoDisparoEm := Some(today))]
    {
      reminders := reminders[i := reminders[i].(ultimoDisparoEm := Some(today))];
    }
  }
}
