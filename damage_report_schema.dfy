/** The request bodies of the damage-report endpoints and their declared bounds. */
module DamageReportSchema {
  import opened Common
  import opened Entities

  datatype DamageReportCreate = DamageReportCreate(textbookId: int, damageType: DamageType, description: string)

  /** Every field optional. */
  datatype DamageReportUpdate = DamageReportUpdate(
    damageType: Patch<DamageType>,
    description: Patch<string>,
    status: Patch<DamageStatus>,
    decision: Patch<Option<string>>)

  predicate DescriptionOk(d: string)
  {
    10 <= |d| <= 1000
  }

  predicate DecisionOk(d: Option<string>)
  {
    d.Some? ==> |d.value| <= 500
  }

  predicate ValidCreate(c: DamageReportCreate)
  {
    DescriptionOk(c.description)
  }

  predicate ValidUpdate(u: DamageReportUpdate)
  {
    (u.description.Put? ==> DescriptionOk(u.description.value)) &&
    (u.decision.Put? ==> DecisionOk(u.decision.value))
  }
}
