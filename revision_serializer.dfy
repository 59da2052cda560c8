/** Validation of the content of a new revision. */
module RevisionSerializer {

  import opened Common

  /** How many whitespace characters open `s`. */
  function LeadCount(s: string): (n: nat)
    ensures n <= |s|
    ensures forall j | 0 <= j < n :: IsSpace(s[j])
    ensures n < |s| ==> !IsSpace(s[n])
  {
    if s == [] || !IsSpace(s[0]) then 0 else 1 + LeadCount(s[1..])
  }

  /** How many whitespace characters close `s`. */
  function TrailCount(s: string): (n: nat)
    ensures n <= |s|
    ensures forall j | |s| - n <= j < |s| :: IsSpace(s[j])
    ensures n < |s| ==> !IsSpace(s[|s| - n - 1])
  {
    if s == [] || !IsSpace(s[|s| - 1]) then 0 else 1 + TrailCount(s[..|s| - 1])
  }

  /** `str.strip()` without arguments: leading and trailing whitespace removed. */
  function Strip(s: string): (t: string)
    ensures t == [] || (!IsSpace(t[0]) && !IsSpace(t[|t| - 1]))
    ensures exists i, k | 0 <= i <= k <= |s| :: t == s[i..k]
              && (forall j | 0 <= j < i :: IsSpace(s[j])) && (forall j | k <= j < |s| :: IsSpace(s[j]))
  {
    var a := LeadCount(s);
    if a == |s| then
      assert s[a..a] == [];
      []
    else
      var b := |s| - TrailCount(s);
      assert a < b;
      s[a..b]
  }

  /** A string strips to nothing exactly when it is all whitespace (the empty string
      included). */
  lemma StripEmpty(s: string)
    ensures Strip(s) == [] <==> forall j | 0 <= j < |s| :: IsSpace(s[j])
  {
    var t := Strip(s);
    var i, k :| 0 <= i <= k <= |s| && t == s[i..k]
              && (forall j | 0 <= j < i :: IsSpace(s[j])) && (forall j | k <= j < |s| :: IsSpace(s[j]));
    assert t != [] ==> t[0] == s[i];
  }

  /** Stripping twice strips nothing more. */
  lemma StripIdempotent(s: string)
    ensures Strip(Strip(s)) == Strip(s)
  {
    var t := Strip(s);
    var t2 := Strip(t);
    var i, k :| 0 <= i <= k <= |t| && t2 == t[i..k]
              && (forall j | 0 <= j < i :: IsSpace(t[j])) && (forall j | k <= j < |t| :: IsSpace(t[j]));
    assert t != [] ==> !IsSpace(t[0]) && !IsSpace(t[|t| - 1]);
    assert t[0..|t|] == t;
  }

  /** The `content` field itself (a character field that trims whitespace and refuses a
      blank value): refuses a value that is empty once stripped, and passes on the
      stripped value otherwise. */
  function ContentField(raw: string): (r: Result<string, string>)
    ensures r.Failure? <==> forall j | 0 <= j < |raw| :: IsSpace(raw[j])
    ensures r.Failure? ==> r.error == "This field may not be blank."
    ensures r.Success? ==> r.value == Strip(raw) && r.value != []
  {
    StripEmpty(raw);
    if Strip(raw) == [] then Failure("This field may not be blank.") else Success(Strip(raw))
  }

  /** `validate_content`: a value that is empty once stripped is refused; any other value
      is kept as it is. */
  function ValidateContent(value: string): (r: Result<string, string>)
    ensures r.Failure? <==> forall j | 0 <= j < |value| :: IsSpace(value[j])
    ensures r.Failure? ==> r.error == "Content cannot be empty"
    ensures r.Success? ==> r.value == value
  {
    StripEmpty(value);
    if Strip(value) == [] then Failure("Content cannot be empty") else Success(value)
  }

  /** The whole validation of `content`: the field, then `validate_content`. */
  function CleanContent(raw: string): (r: Result<string, string>)
  {
    match ContentField(raw)
    case Failure(e) => Failure(e)
    case Success(v) => ValidateContent(v)
  }

  /** The field already refuses whitespace-only content, so `validate_content` never
      refuses anything; accepted content is the submitted text with its surrounding
      whitespace removed. */
  lemma CleanContentRules(raw: string)
    ensures CleanContent(raw).Failure? <==> forall j | 0 <= j < |raw| :: IsSpace(raw[j])
    ensures CleanContent(raw) != Failure("Content cannot be empty")
    ensures CleanContent(raw).Success? ==> CleanContent(raw).value == Strip(raw)
    ensures CleanContent(raw).Success? ==> Strip(CleanContent(raw).value) == CleanContent(raw).value
  {
    var f := ContentField(raw);
    if f.Success? {
      var v := f.value;
      assert v != [];
      assert !IsSpace(v[0]);
      StripIdempotent(raw);
    }
  }
}
