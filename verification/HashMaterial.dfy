/**
 * What the hash of an audit row covers, name by name
 * (`packages/platform/src/audit.ts`, `computeAuditHash`).
 */
module HashMaterial {
  import opened Wrappers
  import opened Canonical
  import opened JsonReading
  import opened AuditChain

  function TextOrNothing(s: Option<string>): Value {
    if s.Some? then VStr(s.value) else VNull
  }

  const NAMES: set<string> := {"id", "tenantId", "actorType", "actorId", "action", "targetType", "targetId", "before", "after",
                               "occurredAt", "prevHash"}

  ghost predicate Under(m: map<string, Value>, name: string, v: Value) {
    name in m && m[name] == v
  }

  // The object a row's hash is taken of: these eleven members.
  ghost predicate IsHashedObject(p: Primitives, c: Content, prevHash: Option<string>, v: Value) {
    && v.VObj? && v.members.Keys == NAMES
    && Under(v.members, "id", VStr(c.id))
    && Under(v.members, "tenantId", VStr(c.tenantId))
    && Under(v.members, "actorType", VStr(c.actorType))
    && Under(v.members, "actorId", TextOrNothing(c.actorId))
    && Under(v.members, "action", VStr(c.action))
    && Under(v.members, "targetType", VStr(c.targetType))
    && Under(v.members, "targetId", TextOrNothing(c.targetId))
    && Under(v.members, "before", Meaning(c.beforeState))
    && Under(v.members, "after", Meaning(c.afterState))
    && Under(v.members, "occurredAt", VStr(p.isoText(c.occurredAt)))
    && Under(v.members, "prevHash", TextOrNothing(prevHash))
  }

  lemma NamesAre()
    ensures FieldName(0) == "id" && FieldName(1) == "tenantId" && FieldName(2) == "actorType" && FieldName(3) == "actorId"
    ensures FieldName(4) == "action" && FieldName(5) == "targetType" && FieldName(6) == "targetId" && FieldName(7) == "before"
    ensures FieldName(8) == "after" && FieldName(9) == "occurredAt" && FieldName(10) == "prevHash"
  {
  }

  lemma NamesAreAll(name: string)
    ensures name in NAMES <==> exists k: nat :: k < HASHED_FIELDS && FieldName(k) == name
  {
    NamesAre();
    if k: nat :| k < HASHED_FIELDS && FieldName(k) == name {
      NameIsOneOf(k);
    }
  }

  lemma NameIsOneOf(k: nat)
    requires k < HASHED_FIELDS
    ensures FieldName(k) in NAMES
  {
  }

  lemma FirstValuesMean(p: Primitives, c: Content, prevHash: Option<string>)
    ensures Meaning(FieldValue(p, c, prevHash, 0)) == VStr(c.id) && Meaning(FieldValue(p, c, prevHash, 1)) == VStr(c.tenantId)
    ensures Meaning(FieldValue(p, c, prevHash, 2)) == VStr(c.actorType)
    ensures Meaning(FieldValue(p, c, prevHash, 3)) == TextOrNothing(c.actorId)
    ensures Meaning(FieldValue(p, c, prevHash, 4)) == VStr(c.action) && Meaning(FieldValue(p, c, prevHash, 5)) == VStr(c.targetType)
  {
  }

  lemma OtherValuesMean(p: Primitives, c: Content, prevHash: Option<string>)
    ensures Meaning(FieldValue(p, c, prevHash, 6)) == TextOrNothing(c.targetId)
    ensures Meaning(FieldValue(p, c, prevHash, 7)) == Meaning(c.beforeState)
    ensures Meaning(FieldValue(p, c, prevHash, 8)) == Meaning(c.afterState)
    ensures Meaning(FieldValue(p, c, prevHash, 9)) == VStr(p.isoText(c.occurredAt))
    ensures Meaning(FieldValue(p, c, prevHash, 10)) == TextOrNothing(prevHash)
  {
  }

  // Every name has its own value, given that every field is under its name.
  lemma EachUnderItsName(p: Primitives, c: Content, prevHash: Option<string>, m: map<string, Value>)
    requires forall k: nat | k < HASHED_FIELDS :: Under(m, FieldName(k), Meaning(FieldValue(p, c, prevHash, k)))
    requires m.Keys == NAMES
    ensures IsHashedObject(p, c, prevHash, VObj(m))
  {
    hide FieldName, FieldValue, NAMES, TextOrNothing, Meaning, Under;
    NamesAre();
    FirstValuesMean(p, c, prevHash);
    OtherValuesMean(p, c, prevHash);
  }

  // What is under a name, field by field.
  lemma {:induction false} FieldUnder(p: Primitives, c: Content, prevHash: Option<string>, i: nat, k: nat)
    requires i <= k < HASHED_FIELDS
    ensures var m := MemberMeanings(FieldsFrom(p, c, prevHash, i));
            FieldName(k) in m && m[FieldName(k)] == Meaning(FieldValue(p, c, prevHash, k))
    decreases k - i
  {
    hide FieldName, FieldValue;
    FieldIsPresent(p, c, prevHash, i);
    if i < k {
      FieldUnder(p, c, prevHash, i + 1, k);
      FieldNamesDiffer(i, k);
    }
  }

  lemma FieldIsPresent(p: Primitives, c: Content, prevHash: Option<string>, i: nat)
    ensures FieldValue(p, c, prevHash, i) != Undefined
  {
  }

  lemma {:induction false} FieldsAreNamed(p: Primitives, c: Content, prevHash: Option<string>, i: nat, name: string)
    requires name in MemberMeanings(FieldsFrom(p, c, prevHash, i))
    ensures exists k :: i <= k < HASHED_FIELDS && FieldName(k) == name
    decreases HASHED_FIELDS - i
  {
    hide FieldName, FieldValue;
    if i < HASHED_FIELDS && name != FieldName(i) {
      FieldsAreNamed(p, c, prevHash, i + 1, name);
    }
  }

  /** The hashed object has eleven members, and under each name what the row says there. */
  lemma MaterialMeans(p: Primitives, c: Content, prevHash: Option<string>)
    ensures IsHashedObject(p, c, prevHash, Meaning(Material(p, c, prevHash)))
  {
    hide FieldName, FieldValue, NAMES, TextOrNothing;
    var m := MemberMeanings(FieldsFrom(p, c, prevHash, 0));
    forall k: nat | k < HASHED_FIELDS
      ensures Under(m, FieldName(k), Meaning(FieldValue(p, c, prevHash, k)))
    {
      FieldUnder(p, c, prevHash, 0, k);
    }
    hide FieldsFrom, Under, IsHashedObject;
    forall name
      ensures name in m <==> name in NAMES
    {
      NamesAreAll(name);
      KeysAreNames(p, c, prevHash, name);
    }
    EachUnderItsName(p, c, prevHash, m);
  }

  lemma KeysAreNames(p: Primitives, c: Content, prevHash: Option<string>, name: string)
    ensures name in MemberMeanings(FieldsFrom(p, c, prevHash, 0)) <==> exists k: nat :: k < HASHED_FIELDS && FieldName(k) == name
  {
    hide FieldName, FieldValue, FieldsFrom, Meaning;
    if name in MemberMeanings(FieldsFrom(p, c, prevHash, 0)) {
      FieldsAreNamed(p, c, prevHash, 0, name);
    }
    if k: nat :| k < HASHED_FIELDS && FieldName(k) == name {
      FieldUnder(p, c, prevHash, 0, k);
    }
  }

  /** A row's hash is that of a JSON text of this object: every name with its own value, and nothing else. */
  lemma HashIsOfThisObject(p: Primitives, c: Content, prevHash: Option<string>)
    requires StrictTotal(p.before) && ContentWellFormed(c)
    ensures exists text :: ComputeHash(p, c, prevHash) == p.sha256(text) && ReadValue(text).Read?
                          && IsHashedObject(p, c, prevHash, ReadValue(text).value) && ReadValue(text).rest == ""
  {
    hide StrictTotal, Material, Meaning, CanonicalText, ReadValue, IsHashedObject, FieldsFrom;
    MaterialMeans(p, c, prevHash);
    MaterialWellFormed(p, c, prevHash);
    CanonicalTextIsJson(p.before, Material(p, c, prevHash));
    var text := CanonicalText(p.before, Material(p, c, prevHash));
    assert ComputeHash(p, c, prevHash) == p.sha256(text);
  }

  lemma MaterialWellFormed(p: Primitives, c: Content, prevHash: Option<string>)
    requires ContentWellFormed(c)
    ensures WellFormed(Material(p, c, prevHash))
  {
    hide FieldsFrom;
    FieldsWellFormed(p, c, prevHash, 0);
  }

  /** How strings are escaped: shortly where there is a short escape, with four lower-case digits otherwise, and no more than JSON asks. */
  lemma EscapesAre(c: char)
    ensures Escape('"') == "\\\"" && Escape('\\') == "\\\\" && Escape('\U{0008}') == "\\b" && Escape('\U{000c}') == "\\f"
    ensures Escape('\n') == "\\n" && Escape('\r') == "\\r" && Escape('\t') == "\\t"
    ensures Escape('\0') == "\\u0000" && Escape('\U{001f}') == "\\u001f"
    ensures c >= ' ' && c != '"' && c != '\\' ==> Escape(c) == [c]
  {
  }
}
