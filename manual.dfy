/**
 * The records of `src/lib.rs` that the scraper fills in: functions, their
 * parameters, variables and constants. A link is kept as an opaque string
 * (the `Url` or file path of the page the record came from).
 */
module Manual {
  import opened Wrappers
  import SortedMap

  type Link = string

  /** `GmManualFunctionParameter`: a parameter name and its description, as
      flattened Markdown. */
  datatype GmManualFunctionParameter = GmManualFunctionParameter(parameter: string, description: string)

  /** `GmManualFunction`. `requiredParameters` is `usize` in the source;
      `returnsText` is the `returns` field (`returns` is a keyword here). */
  datatype GmManualFunction = GmManualFunction(
    name: string,
    parameters: seq<GmManualFunctionParameter>,
    requiredParameters: nat,
    isVariadic: bool,
    example: string,
    description: string,
    returnsText: string,
    link: Link)

  /** `GmManualVariable`. */
  datatype GmManualVariable = GmManualVariable(
    name: string,
    example: string,
    description: string,
    returnsText: string,
    link: Link)

  /** `GmManualConstant`; the secondary descriptors are a `BTreeMap<String, String>`. */
  datatype GmManualConstant = GmManualConstant(
    name: string,
    description: string,
    link: Link,
    secondaryDescriptors: Option<SortedMap.Entries>)
}
