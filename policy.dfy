/** The catalog's record type. */
module PolicyModel {
  import opened Wrappers

  /**
   * One insurance policy as loaded from the catalog. Every field is a
   * nullable Java reference (Long, String, String, Integer, Integer).
   */
  datatype Policy = Policy(
    id: Option<int>,
    name: Option<string>,
    policyType: Option<string>,
    premium: Option<int>,
    coverage: Option<int>)
}
