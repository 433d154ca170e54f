/** The request bodies of the found-report endpoints and their declared bounds. */
module FoundReportSchema {
  import opened Common
  import opened Entities

  datatype FoundReportCreate = FoundReportCreate(textbookId: int, foundLocation: string, description: Option<string>)

  /** Every field optional. */
  datatype FoundReportUpdate = FoundReportUpdate(
    foundLocation: Patch<string>,
    description: Patch<Option<string>>,
    status: Patch<FoundStatus>,
    notes: Patch<Option<string>>)

  predicate LocationOk(l: string)
  {
    5 <= |l| <= 200
  }

  /** `description` and `notes`: at most 500 characters when given. */
  predicate TextOk(t: Option<string>)
  {
    t.Some? ==> |t.value| <= 500
  }

  predicate ValidCreate(c: FoundReportCreate)
  {
    LocationOk(c.foundLocation) && TextOk(c.description)
  }

  predicate ValidUpdate(u: FoundReportUpdate)
  {
    (u.foundLocation.Put? ==> LocationOk(u.foundLocation.value)) &&
    (u.description.Put? ==> TextOk(u.description.value)) &&
    (u.notes.Put? ==> TextOk(u.notes.value))
  }
}
