/** `getFieldLabel`: the display label of a record field identifier. */
module Fields {

  /** The object literal of known field identifiers and their labels. */
  const FieldLabels: map<string, string> := map[
    "Funding_Kickback_Resolved__c" := "Funding Kickback Resolved",
    "FSD_Status_Update__c" := "FSD Status Update"
  ]

  /** The names every plain JavaScript object inherits from `Object.prototype`;
      looking one of them up in the label object yields a truthy inherited
      member instead of `undefined`. */
  const InheritedKeys: set<string> := {
    "constructor", "hasOwnProperty", "isPrototypeOf", "propertyIsEnumerable",
    "toLocaleString", "toString", "valueOf", "__proto__",
    "__defineGetter__", "__defineSetter__", "__lookupGetter__", "__lookupSetter__"
  }

  /** `fieldLabels[fieldName] || fieldName`: the label when the lookup is truthy
      (a non-empty string), the identifier itself otherwise. */
  function FieldLabel(field: string): (shown: string)
    requires field !in InheritedKeys
    ensures field in FieldLabels ==> shown == FieldLabels[field]
    ensures field !in FieldLabels ==> shown == field
    ensures |shown| > 0 || field == ""
  {
    if field in FieldLabels && FieldLabels[field] != "" then FieldLabels[field] else field
  }

  /** The label is the identifier itself exactly for the identifiers the table
      does not know. */
  lemma FieldLabelIdentity(field: string)
    requires field !in InheritedKeys
    ensures FieldLabel(field) == field <==> field !in FieldLabels
  {
    if field in FieldLabels {
      assert field == "Funding_Kickback_Resolved__c" || field == "FSD_Status_Update__c";
      assert "Funding Kickback Resolved" != "Funding_Kickback_Resolved__c";
      assert "FSD Status Update"[3] != "FSD_Status_Update__c"[3];
    }
  }

  /** The two known identifiers and one unknown identifier. */
  lemma FieldLabelExamples()
    ensures FieldLabel("Funding_Kickback_Resolved__c") == "Funding Kickback Resolved"
    ensures FieldLabel("FSD_Status_Update__c") == "FSD Status Update"
    ensures FieldLabel("Foo__c") == "Foo__c"
  {
    assert "Foo__c" !in InheritedKeys;
    assert "Foo__c" !in FieldLabels;
  }
}
