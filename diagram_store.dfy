/** The persisted diagram record, the partial record `update` accepts, and
    the object-spread merge the store performs; all pure values. */
module DiagramStore {
  import opened Wrappers

  /** A JavaScript `Date`, as the milliseconds it holds. */
  type Time = int

  /** The `Diagram` record. Its `id` is optional in the record type itself;
      every stored record carries one equal to its key. */
  datatype Diagram = Diagram(id: Option<string>, name: string, code: string,
                             createdAt: Time, updatedAt: Time)

  /** `Partial<Diagram>`: each field is either absent (`None`) or supplied. */
  datatype Patch = Patch(id: Option<string>, name: Option<string>, code: Option<string>,
                         createdAt: Option<Time>, updatedAt: Option<Time>)

  const NoFields := Patch(None, None, None, None, None)

  /** The store's failures, one per rejection in the source. */
  datatype DbError =
    | NotInitialized
    | OpenFailed
    | CreateFailed
    | GetAllFailed
    | GetFailed
    | NotFound
    | GetForUpdateFailed
    | UpdateFailed
    | DeleteFailed

  /** The message each rejection carries. */
  function Message(e: DbError): string {
    match e
    case NotInitialized => "Database not initialized. Call init() first."
    case OpenFailed => "Failed to open database"
    case CreateFailed => "Failed to create diagram"
    case GetAllFailed => "Failed to get diagrams"
    case GetFailed => "Failed to get diagram"
    case NotFound => "Diagram not found"
    case GetForUpdateFailed => "Failed to get diagram for update"
    case UpdateFailed => "Failed to update diagram"
    case DeleteFailed => "Failed to delete diagram"
  }

  /** Each rejection carries its own message, so a caller can tell any two
      of them apart by the message alone. */
  lemma MessagesDistinct(e1: DbError, e2: DbError)
    ensures Message(e1) == Message(e2) <==> e1 == e2
  {
  }

  /** `{ ...base, ...patch }`: every field the patch supplies overrides the
      base's, every other field is the base's. */
  function Spread(base: Diagram, patch: Patch): Diagram {
    Diagram(if patch.id.Some? then patch.id else base.id,
            patch.name.GetOr(base.name),
            patch.code.GetOr(base.code),
            patch.createdAt.GetOr(base.createdAt),
            patch.updatedAt.GetOr(base.updatedAt))
  }

  /** `{ ...diagram, id }`, the record `create` adds. */
  function WithId(d: Diagram, id: string): (r: Diagram)
    ensures r.id == Some(id)
    ensures r.name == d.name && r.code == d.code
    ensures r.createdAt == d.createdAt && r.updatedAt == d.updatedAt
  {
    Spread(d, NoFields.(id := Some(id)))
  }

  /** `{ ...existing, ...patch, id, updatedAt: now }`, the record `update`
      writes back. */
  function Merge(existing: Diagram, patch: Patch, id: string, now: Time): (r: Diagram)
    ensures r.id == Some(id)
    ensures r.updatedAt == now
  {
    Spread(Spread(existing, patch), NoFields.(id := Some(id), updatedAt := Some(now)))
  }

  /** The merge lets every field the patch supplies override the stored
      one and keeps every field it omits; the id and the update time are
      forced whatever the patch says about them. */
  lemma MergeFields(existing: Diagram, patch: Patch, id: string, now: Time)
    ensures var r := Merge(existing, patch, id, now);
      && r.id == Some(id)
      && r.updatedAt == now
      && (patch.name.Some? ==> r.name == patch.name.value)
      && (patch.name.None? ==> r.name == existing.name)
      && (patch.code.Some? ==> r.code == patch.code.value)
      && (patch.code.None? ==> r.code == existing.code)
      && (patch.createdAt.Some? ==> r.createdAt == patch.createdAt.value)
      && (patch.createdAt.None? ==> r.createdAt == existing.createdAt)
  {
  }

  /** Renaming keeps the source text: a patch holding only a name changes
      the name, the id and the update time and nothing else. */
  lemma RenameKeepsCode(existing: Diagram, name: string, id: string, now: Time)
    ensures Merge(existing, NoFields.(name := Some(name)), id, now)
         == existing.(id := Some(id), name := name, updatedAt := now)
  {
  }

  /** An empty patch only re-stamps the update time (and the id). */
  lemma EmptyPatchRestamps(existing: Diagram, id: string, now: Time)
    ensures Merge(existing, NoFields, id, now) == existing.(id := Some(id), updatedAt := now)
  {
  }

  /** Applying the same update twice is the same as applying it once. */
  lemma MergeIdempotent(existing: Diagram, patch: Patch, id: string, now: Time)
    ensures Merge(Merge(existing, patch, id, now), patch, id, now) == Merge(existing, patch, id, now)
  {
  }

  // ---------------------------------------------------------------------
  // Invariants of the collection

  /** The collection is keyed by `id`: each record's id is its key. */
  ghost predicate KeyedById(m: map<string, Diagram>) {
    forall k :: k in m ==> m[k].id == Some(k)
  }

  /** No record was last updated after `now`. */
  ghost predicate NotAfter(m: map<string, Diagram>, now: Time) {
    forall k :: k in m ==> m[k].updatedAt <= now
  }

  /** Writing a merged record back under its own id keeps the collection
      keyed by id, and so does adding a record under a fresh id and
      deleting a key. */
  lemma KeyedByIdPreserved(m: map<string, Diagram>, d: Diagram, patch: Patch, k: string, now: Time)
    requires KeyedById(m)
    ensures KeyedById(m[k := WithId(d, k)])
    ensures k in m ==> KeyedById(m[k := Merge(m[k], patch, k, now)])
    ensures KeyedById(m - {k})
  {
  }

  /** With a clock that does not go backwards, an update never moves a
      record's update time backwards and leaves every record no later
      than the clock. */
  lemma UpdateKeepsClockOrder(m: map<string, Diagram>, patch: Patch, k: string, before: Time, now: Time)
    requires NotAfter(m, before) && before <= now && k in m
    ensures var m' := m[k := Merge(m[k], patch, k, now)];
      && m[k].updatedAt <= m'[k].updatedAt
      && NotAfter(m', now)
  {
  }
}
