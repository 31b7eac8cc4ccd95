/** The form-validation and toast helpers of `client/js/components.js`: `validateField`,
    `isValidEmail`, `validateForm` and `getToastIcon`.

    A form is the map from field name to its input's current value (a field with no input is
    absent); a rule's `pattern` is a parameter standing for `RegExp.prototype.test`. Messages are
    the source's Vietnamese strings, written with escapes. */
module Components {
  import opened Wrappers
  import Text
  import Values

  /** A field rule. `minLength` 0 stands for an unset (falsy) bound, `message` "" for an unset
      message, as `&&` and `||` treat them. */
  datatype Rule = Rule(
    required: bool,
    email: bool,
    minLength: int,
    pattern: Option<string -> bool>,
    message: string)

  const RequiredMessage: string :=
    "Tr\U{01B0}\U{1EDD}ng n\U{00E0}y kh\U{00F4}ng \U{0111}\U{01B0}\U{1EE3}c \U{0111}\U{1EC3} tr\U{1ED1}ng"
  const EmailMessage: string := "Email kh\U{00F4}ng h\U{1EE3}p l\U{1EC7}"
  const PatternMessage: string := "Gi\U{00E1} tr\U{1ECB} kh\U{00F4}ng h\U{1EE3}p l\U{1EC7}"

  function MinLengthMessage(n: int): string {
    "T\U{1ED1}i thi\U{1EC3}u " + Text.IntToDecimal(n) + " k\U{00FD} t\U{1EF1}"
  }

  // ---------------------------------------------------------------------------------------
  // The e-mail pattern

  /** A character `[^\s@]` matches. */
  predicate Plain(c: char) {
    !Text.IsWhitespace(c) && c != '@'
  }

  predicate AllPlain(s: string) {
    forall k | 0 <= k < |s| :: Plain(s[k])
  }

  /** What `/^[^\s@]+@[^\s@]+\.[^\s@]+$/` accepts: three non-empty runs of plain characters, the
      first two joined by `@`, the last two by `.`. */
  predicate MatchesEmailPattern(s: string) {
    exists i, j | 0 < i && i + 1 < j && j + 1 < |s| ::
      s[i] == '@' && s[j] == '.' && AllPlain(s[..i]) && AllPlain(s[i + 1..j]) && AllPlain(s[j + 1..])
  }

  /** The domain has a dot that is neither its first nor its last character. */
  predicate InnerDot(d: string) {
    exists j | 0 < j < |d| - 1 :: d[j] == '.'
  }

  /** `isValidEmail`: no whitespace, exactly one `@`, a non-empty local part, and a dot strictly
      inside the domain. */
  predicate IsValidEmail(s: string): (b: bool)
    ensures b ==> |s| >= 5 && s[0] != '@' && s[|s| - 1] != '@'
  {
    && '@' in s
    && (forall k | 0 <= k < |s| :: !Text.IsWhitespace(s[k]))
    && var at := Text.IndexOf(s, '@');
       && at > 0
       && '@' !in s[at + 1..]
       && InnerDot(s[at + 1..])
  }

  /** The characterisation agrees with the regular expression, in both directions. */
  lemma IsValidEmailMatchesPattern(s: string)
    ensures IsValidEmail(s) <==> MatchesEmailPattern(s)
  {
    if IsValidEmail(s) {
      ValidEmailMatches(s);
    }
    if MatchesEmailPattern(s) {
      MatchIsValidEmail(s);
    }
  }

  lemma ValidEmailMatches(s: string)
    requires IsValidEmail(s)
    ensures MatchesEmailPattern(s)
  {
    var i := Text.IndexOf(s, '@');
    var d := s[i + 1..];
    var j' :| 0 < j' < |d| - 1 && d[j'] == '.';
    var j := i + 1 + j';
    assert s[j] == '.';
    var local, host, top := s[..i], s[i + 1..j], s[j + 1..];
    assert AllPlain(local) by {
      forall k | 0 <= k < |local| ensures Plain(local[k]) {
        assert local[k] == s[k] && s[k] in s[..i];
      }
    }
    assert AllPlain(host) by {
      forall k | 0 <= k < |host| ensures Plain(host[k]) {
        assert host[k] == d[k] && d[k] in d;
      }
    }
    assert AllPlain(top) by {
      forall k | 0 <= k < |top| ensures Plain(top[k]) {
        assert top[k] == d[j' + 1 + k] && d[j' + 1 + k] in d;
      }
    }
  }

  lemma MatchIsValidEmail(s: string)
    requires MatchesEmailPattern(s)
    ensures IsValidEmail(s)
  {
    var i, j :| 0 < i && i + 1 < j && j + 1 < |s| && s[i] == '@' && s[j] == '.'
                && AllPlain(s[..i]) && AllPlain(s[i + 1..j]) && AllPlain(s[j + 1..]);
    var local, host, top := s[..i], s[i + 1..j], s[j + 1..];
    forall k | 0 <= k < |s| ensures !Text.IsWhitespace(s[k]) && (k != i ==> s[k] != '@') {
      if k < i {
        assert s[k] == local[k];
      } else if i < k < j {
        assert s[k] == host[k - i - 1];
      } else if j < k {
        assert s[k] == top[k - j - 1];
      }
    }
    assert '@' !in local;
    assert Text.IndexOf(s, '@') == i;
    var d := s[i + 1..];
    assert d[j - i - 1] == '.';
    assert '@' !in d by {
      forall k | 0 <= k < |d| ensures d[k] != '@' {
        assert d[k] == s[i + 1 + k];
      }
    }
  }

  // ---------------------------------------------------------------------------------------
  // Fields and forms

  /** The rules of `validateField` in the order it checks them: whether each one fails on the
      value, and the message it gives then. */
  function Checks(value: string, rule: Rule): seq<(bool, string)> {
    [ (rule.required && value == [], RequiredMessage),
      (rule.email && !IsValidEmail(value), EmailMessage),
      (rule.minLength != 0 && |value| < rule.minLength, MinLengthMessage(rule.minLength)),
      (rule.pattern.Some? && !rule.pattern.value(value),
       if rule.message != [] then rule.message else PatternMessage) ]
  }

  /** The message of the first failing check, if any. */
  function FirstFailure(checks: seq<(bool, string)>): (r: Option<string>)
    ensures r.None? <==> forall i | 0 <= i < |checks| :: !checks[i].0
    ensures r.Some? ==> exists i | 0 <= i < |checks| ::
              checks[i].0 && checks[i].1 == r.value && forall k | 0 <= k < i :: !checks[k].0
  {
    if |checks| == 0 then None
    else if checks[0].0 then Some(checks[0].1)
    else
      var r := FirstFailure(checks[1..]);
      assert forall i | 1 <= i < |checks| :: checks[i] == checks[1..][i - 1];
      r
  }

  /** `validateField`: the first failing rule in the order required, email, minimum length,
      pattern, or `None` when every rule passes. */
  function ValidateField(value: string, rule: Rule): (r: Option<string>)
    ensures rule.required && value == [] ==> r == Some(RequiredMessage)
    ensures r.None? <==> (!rule.required || value != [])
                         && (!rule.email || IsValidEmail(value))
                         && (rule.minLength == 0 || |value| >= rule.minLength)
                         && (rule.pattern.None? || rule.pattern.value(value))
  {
    if rule.required && value == [] then Some(RequiredMessage)
    else if rule.email && !IsValidEmail(value) then Some(EmailMessage)
    else if rule.minLength != 0 && |value| < rule.minLength then Some(MinLengthMessage(rule.minLength))
    else if rule.pattern.Some? && !rule.pattern.value(value) then
      Some(if rule.message != [] then rule.message else PatternMessage)
    else None
  }

  /** `validateField` reports the first failing rule of the fixed order. */
  lemma ValidateFieldIsFirstFailure(value: string, rule: Rule)
    ensures ValidateField(value, rule) == FirstFailure(Checks(value, rule))
  {
    var c := Checks(value, rule);
    var c1 := c[1..];
    var c2 := c1[1..];
    var c3 := c2[1..];
    assert c3[1..] == [];
    assert FirstFailure(c3) == if c[3].0 then Some(c[3].1) else None;
    assert FirstFailure(c2) == if c[2].0 then Some(c[2].1) else FirstFailure(c3);
    assert FirstFailure(c1) == if c[1].0 then Some(c[1].1) else FirstFailure(c2);
  }

  /** An empty value under a non-required e-mail rule still fails, with the e-mail message. */
  lemma EmptyOptionalEmailFails(rule: Rule)
    requires rule.email && !rule.required
    ensures ValidateField("", rule) == Some(EmailMessage)
  {
  }

  /** A minimum length of 0 never fails, and a set minimum fails exactly on shorter values. */
  lemma MinLengthRule(value: string, n: int)
    ensures ValidateField(value, Rule(false, false, 0, None, "")).None?
    ensures n != 0 ==>
              (ValidateField(value, Rule(false, false, n, None, "")) == Some(MinLengthMessage(n))
               <==> |value| < n)
  {
  }

  predicate DistinctFields(rules: seq<(string, Rule)>) {
    forall i, j | 0 <= i < j < |rules| :: rules[i].0 != rules[j].0
  }

  /** The error a rule entry produces on a form, if its field has an input. */
  function FieldError(form: map<string, string>, entry: (string, Rule)): Option<string> {
    if entry.0 in form then ValidateField(Text.Trim(form[entry.0]), entry.1) else None
  }

  /** The errors map after the first `|rules|` entries have been validated. */
  function Errors(form: map<string, string>, rules: seq<(string, Rule)>): map<string, string> {
    if |rules| == 0 then map[]
    else
      var before := Errors(form, rules[..|rules| - 1]);
      var last := rules[|rules| - 1];
      match FieldError(form, last)
      case Some(m) => before[last.0 := m]
      case None => before
  }

  /** With distinct field names, the errors map holds exactly the fields whose rule fails, each
      with its message. */
  lemma {:induction false} ErrorsAreFailingFields(form: map<string, string>, rules: seq<(string, Rule)>)
    requires DistinctFields(rules)
    ensures forall i | 0 <= i < |rules| && FieldError(form, rules[i]).Some? ::
              rules[i].0 in Errors(form, rules)
              && Errors(form, rules)[rules[i].0] == FieldError(form, rules[i]).value
    ensures forall f | f in Errors(form, rules) :: exists i | 0 <= i < |rules| ::
              rules[i].0 == f && FieldError(form, rules[i]).Some?
  {
    if |rules| > 0 {
      var init := rules[..|rules| - 1];
      var last := rules[|rules| - 1];
      ErrorsAreFailingFields(form, init);
      forall i | 0 <= i < |init| ensures init[i] == rules[i] && init[i].0 != last.0 {
      }
    }
  }

  /** `validateForm`: each rule in turn, skipping fields without an input, validating the trimmed
      value; `isValid` says no field produced an error. */
  method ValidateForm(form: map<string, string>, rules: seq<(string, Rule)>)
    returns (isValid: bool, errors: map<string, string>)
    requires DistinctFields(rules)
    ensures forall i | 0 <= i < |rules| && FieldError(form, rules[i]).Some? ::
              rules[i].0 in errors && errors[rules[i].0] == FieldError(form, rules[i]).value
    ensures forall f | f in errors :: exists i | 0 <= i < |rules| ::
              rules[i].0 == f && FieldError(form, rules[i]).Some?
    ensures isValid <==> forall i | 0 <= i < |rules| :: FieldError(form, rules[i]).None?
  {
    errors := map[];
    var i := 0;
    while i < |rules|
      invariant 0 <= i <= |rules|
      invariant errors == Errors(form, rules[..i])
    {
      assert rules[..i + 1][..i] == rules[..i];
      var field := rules[i].0;
      if field in form {
        var error := FieldError(form, rules[i]);
        if error.Some? {
          errors := errors[field := error.value];
        }
      }
      i := i + 1;
    }
    assert rules[..i] == rules;
    ErrorsAreFailingFields(form, rules);
    isValid := |errors| == 0;
    if !isValid {
      var f :| f in errors;
    }
  }

  // ---------------------------------------------------------------------------------------
  // Toasts

  /** What `icons[type] || icons.info` yields: an icon name, or, for a name the `icons` object
      inherits, that inherited member (a function, or the prototype for `__proto__`), which is
      truthy and so returned as it is. */
  datatype Icon = IconName(name: string) | InheritedMember(member: string)

  /** `getToastIcon`: the Font Awesome icon for a toast type, `info-circle` for any other. */
  function ToastIcon(kind: string): (r: Icon)
    ensures kind == "success" ==> r == IconName("check-circle")
    ensures kind == "error" ==> r == IconName("exclamation-circle")
    ensures kind == "warning" ==> r == IconName("exclamation-triangle")
    ensures kind == "info" ==> r == IconName("info-circle")
    ensures kind in Values.InheritedNames ==> r == InheritedMember(kind)
    ensures kind !in {"success", "error", "warning", "info"} && kind !in Values.InheritedNames ==>
              r == IconName("info-circle")
  {
    if kind == "success" then IconName("check-circle")
    else if kind == "error" then IconName("exclamation-circle")
    else if kind == "warning" then IconName("exclamation-triangle")
    else if kind == "info" then IconName("info-circle")
    else if kind in Values.InheritedNames then InheritedMember(kind)
    else IconName("info-circle")
  }

  /** Distinct known types get distinct icons, every icon is one of the four, and an icon name
      comes back for every type but the inherited names. */
  lemma ToastIconsDistinct(a: string, b: string)
    requires a in {"success", "error", "warning", "info"} && b in {"success", "error", "warning", "info"}
    ensures ToastIcon(a) == ToastIcon(b) <==> a == b
    ensures ToastIcon(a).IconName?
    ensures ToastIcon(a).name in {"check-circle", "exclamation-circle", "exclamation-triangle", "info-circle"}
  {
  }

  /** The icon is a name exactly when the type is not a name `icons` inherits. */
  lemma ToastIconIsNameOffPrototype(kind: string)
    ensures ToastIcon(kind).IconName? <==> kind !in Values.InheritedNames
  {
  }
}
