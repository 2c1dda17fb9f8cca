/** The records the dashboard is derived from, the truthiness tests the
    dashboard applies to their fields, the two ranking keys, and the
    normalisation of whatever the data hook delivered into a list. */
module FormRecords {
  import opened Wrappers

  /** One form as delivered by the data hook.  A field that is missing,
      `null` or `undefined` is `None`; a `null` element of the array behaves
      like a record whose fields are all `None`, because every access in the
      dashboard goes through `form?.field`.
      - `responseCount` holds the result of `Number(...)` when that is an
        integer; a value that coerces to `NaN` is `None`.
      - `updatedAt` holds the instant (milliseconds since the epoch) that the
        ISO string denotes; a missing or empty string is `None`. */
  datatype FormRecord = FormRecord(
    id: Option<string>,
    responseCount: Option<int>,
    linkedFormId: Option<string>,
    updatedAt: Option<int>)

  /** JavaScript truthiness of an optional string: present and non-empty. */
  predicate Truthy(s: Option<string>) {
    s.Some? && s.value != ""
  }

  /** `form?.id` is truthy and equal to `k`. */
  predicate HasId(f: FormRecord, k: string) {
    Truthy(f.id) && f.id.value == k
  }

  /** `form?.linkedFormId` is truthy. */
  predicate IsLinked(f: FormRecord) {
    Truthy(f.linkedFormId)
  }

  /** `Number(form?.responseCount) || 0`: a missing or non-numeric count is 0. */
  function ResponseKey(f: FormRecord): int {
    f.responseCount.GetOr(0)
  }

  /** `new Date(form?.updatedAt || 0)` as a number: a missing timestamp is the epoch. */
  function RecencyKey(f: FormRecord): int {
    f.updatedAt.GetOr(0)
  }

  /** What the data hook delivered as `data`: an array of records, or any
      other value (`undefined` while loading, `null`, an object, ...). */
  datatype FetchedData = ArrayData(records: seq<FormRecord>) | OtherData

  /** `Array.isArray(formsData) ? formsData : []`. */
  function NormalizeForms(data: FetchedData): seq<FormRecord> {
    match data
    case ArrayData(records) => records
    case OtherData => []
  }
}
