/** The driver's connection-property descriptors and its boolean reading of
    property values. */
module DriverPropertyInfoHelper {
  import opened Wrappers
  import opened JavaText
  import opened ConsistencyLevels

  const EnableSsl: string := "sslenabled"
  const EnableSslDefault: string := "false"
  const VerifyServerCertificate: string := "verifyServerCertificate"
  const VerifyServerCertificateDefault: string := "true"
  const BooleanChoices: seq<string> := ["true", "false"]
  const ConsistencyLevelKey: string := "consistencyLevel"
  const ConsistencyLevelChoices: seq<string> :=
    ["ALL", "EACH_QUORUM", "QUORUM", "LOCAL_QUORUM", "ONE", "TWO", "THREE",
     "LOCAL_ONE", "ANY", "SERIAL", "LOCAL_SERIAL"]

  const EnableSslDescription: string := "Enable ssl."
  const VerifyServerCertificateDescription: string :=
    "Configure a connection that uses SSL but does not verify the identity of the server."
  const ConsistencyLevelDescription: string :=
    "Consistency level determines how many nodes in the replica must respond for the coordinator node to successfully process a non-lightweight transaction."

  /** `java.sql.DriverPropertyInfo`: `value` holds the default; a fresh
      descriptor is not required and has no choices. */
  datatype PropertyInfo = PropertyInfo(
    name: string,
    value: string,
    description: string,
    required: bool,
    choices: Option<seq<string>>)

  /** `addPropInfo`: appends one descriptor, leaving the earlier ones alone. */
  function AddPropInfo(infos: seq<PropertyInfo>, name: string, defaultValue: string,
                       description: string, choices: Option<seq<string>>): (r: seq<PropertyInfo>)
    ensures |r| == |infos| + 1
    ensures r[..|infos|] == infos
    ensures r[|infos|].name == name && r[|infos|].value == defaultValue
    ensures r[|infos|].description == description && !r[|infos|].required
    ensures r[|infos|].choices == choices
  {
    infos + [PropertyInfo(name, defaultValue, description, false, choices)]
  }

  /** `getPropertyInfo`. The default consistency level is the cluster driver's
      `DEFAULT_CONSISTENCY_LEVEL`, supplied by the caller. */
  function GetPropertyInfo(defaultLevel: ConsistencyLevel): (r: seq<PropertyInfo>)
    ensures |r| == 3
    ensures r[0].name == "sslenabled" && r[0].value == "false"
    ensures r[1].name == "verifyServerCertificate" && r[1].value == "true"
    ensures r[2].name == "consistencyLevel" && r[2].value == Name(defaultLevel)
    ensures r[0].choices == Some(["true", "false"]) && r[1].choices == Some(["true", "false"])
    ensures r[2].choices.Some? && |r[2].choices.value| == |Declared|
    ensures forall i :: 0 <= i < |Declared| ==> r[2].choices.value[i] == Name(Declared[i])
    ensures forall i :: 0 <= i < 3 ==> !r[i].required && r[i].choices.Some?
  {
    var a := AddPropInfo([], EnableSsl, EnableSslDefault, EnableSslDescription, Some(BooleanChoices));
    var b := AddPropInfo(a, VerifyServerCertificate, VerifyServerCertificateDefault,
                         VerifyServerCertificateDescription, Some(BooleanChoices));
    AddPropInfo(b, ConsistencyLevelKey, Name(defaultLevel), ConsistencyLevelDescription,
                Some(ConsistencyLevelChoices))
  }

  /** `isTrue`: `null` is false; otherwise "1", or "true" in any case. */
  function IsTrue(value: Option<string>): (r: bool)
    ensures r <==> value.Some? && (value.value == "1" || EqualsIgnoreCase(value.value, "true"))
  {
    if value.None? then false
    else
      ToLowerEqualsIff(value.value, "true");
      value.value == "1" || ToLower(value.value) == "true"
  }

  lemma IsTrueExamples()
    ensures !IsTrue(None)
    ensures IsTrue(Some("1")) && IsTrue(Some("true")) && IsTrue(Some("TRUE")) && IsTrue(Some("tRuE"))
    ensures !IsTrue(Some("yes")) && !IsTrue(Some(" true")) && !IsTrue(Some("0")) && !IsTrue(Some("false"))
  {
  }
}
