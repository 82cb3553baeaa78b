/**
 * The request DTOs with more than presence checks (modules/auth/dto/create.dto.ts,
 * reset-password.dto.ts, modules/admin/dto/create-product.dto.ts, update-product.dto.ts),
 * and the class-validator rules they use, as predicates on the object the validation
 * middleware builds.
 */
module Dtos {
  import opened Wrappers
  import opened Http

  /** Length bounds of configs/constants.ts. */
  const EMAIL_MAX_LENGTH: int := 255
  const PASSWORD_MIN_LENGTH: int := 6
  const PASSWORD_MAX_LENGTH: int := 255
  const PRODUCT_TITLE_MIN_LENGTH: int := 2
  const PRODUCT_TITLE_MAX_LENGTH: int := 15
  const MOBILE_MAX_LENGTH: int := 10

  /** The rules the four DTOs use.  A bound that is `undefined` is None. */
  datatype Rule =
    | IsString
    | IsNotEmpty
    | MaxLength(max: Option<int>)
    | MinLength(min: int)
    | Length(shortest: int, longest: int)
    | MatchesPassword
    | IsEmail
    | IsNumber

  /** One decorated property: its name, whether it carries `@IsOptional()`, its rules. */
  datatype Field = Field(name: string, optional: bool, rules: seq<Rule>)

  /** The variation selectors U+FE0E and U+FE0F, which the length rules do not count. */
  predicate IsSelector(c: char) { c == '\U{FE0E}' || c == '\U{FE0F}' }

  /** The length the length rules measure: characters (a surrogate pair counts once),
      variation selectors left out. */
  function Len(s: string): (n: nat)
    ensures n <= |s|
    ensures (forall k :: 0 <= k < |s| ==> !IsSelector(s[k])) ==> n == |s|
    decreases |s|
  {
    if s == [] then 0
    else Len(s[..|s| - 1]) + (if IsSelector(s[|s| - 1]) then 0 else 1)
  }

  /** `isNotEmpty`: anything but "", null and undefined. */
  predicate NotEmpty(v: Value) { v != Str("") && v != Null && v != Undefined }

  /** The characters JavaScript's `.` does not match. */
  predicate LineTerminator(c: char) {
    c == '\n' || c == '\r' || c == '\U{2028}' || c == '\U{2029}'
  }

  predicate Digit(c: char) { '0' <= c <= '9' }
  predicate Lower(c: char) { 'a' <= c <= 'z' }
  predicate Upper(c: char) { 'A' <= c <= 'Z' }
  /** `[\W_]`: anything outside [A-Za-z0-9]. */
  predicate Special(c: char) { !Digit(c) && !Lower(c) && !Upper(c) }

  /** `(?=.*X)` at the start: a character of class X occurs after a run of characters that
      `.` matches. */
  ghost predicate Ahead(s: string, kind: char -> bool) {
    exists i :: 0 <= i < |s| && kind(s[i]) && forall k :: 0 <= k < i ==> !LineTerminator(s[k])
  }

  /** `^(?=.*\d)(?=.*[a-z])(?=.*[A-Z])(?=.*[\W_]).*$`, read as written: four lookaheads
      at the start, then `.*` up to the end. */
  ghost predicate PasswordPattern(s: string) {
    Ahead(s, Digit) && Ahead(s, Lower) && Ahead(s, Upper) && Ahead(s, Special) &&
    forall k :: 0 <= k < |s| ==> !LineTerminator(s[k])
  }

  /** Whether `v` passes `rule`; `isEmail` is validator.js's e-mail check. */
  ghost predicate Holds(rule: Rule, v: Value, isEmail: string -> bool) {
    match rule
    case IsString => v.Str?
    case IsNotEmpty => NotEmpty(v)
    case MaxLength(max) => v.Str? && (max.None? || Len(v.s) <= max.value)
    case MinLength(min) => v.Str? && min <= Len(v.s)
    case Length(shortest, longest) => v.Str? && shortest <= Len(v.s) <= longest
    case MatchesPassword => v.Str? && PasswordPattern(v.s)
    case IsEmail => v.Str? && isEmail(v.s)
    case IsNumber => v.Num?
  }

  /** `v` passes every rule of the list. */
  ghost predicate AllHold(rules: seq<Rule>, v: Value, isEmail: string -> bool)
    decreases |rules|
  {
    rules == [] || (Holds(rules[0], v, isEmail) && AllHold(rules[1..], v, isEmail))
  }

  /** `AllHold` on lists of one to four rules, rule by rule. */
  lemma AllHold1(a: Rule, v: Value, isEmail: string -> bool)
    ensures AllHold([a], v, isEmail) <==> Holds(a, v, isEmail)
  {
    assert [a][1..] == [];
  }

  lemma AllHold2(a: Rule, b: Rule, v: Value, isEmail: string -> bool)
    ensures AllHold([a, b], v, isEmail) <==> Holds(a, v, isEmail) && Holds(b, v, isEmail)
  {
    assert [a, b][1..] == [b];
    AllHold1(b, v, isEmail);
  }

  lemma AllHold3(a: Rule, b: Rule, c: Rule, v: Value, isEmail: string -> bool)
    ensures AllHold([a, b, c], v, isEmail) <==>
      Holds(a, v, isEmail) && Holds(b, v, isEmail) && Holds(c, v, isEmail)
  {
    assert [a, b, c][1..] == [b, c];
    AllHold2(b, c, v, isEmail);
  }

  lemma AllHold4(a: Rule, b: Rule, c: Rule, d: Rule, v: Value, isEmail: string -> bool)
    ensures AllHold([a, b, c, d], v, isEmail) <==>
      Holds(a, v, isEmail) && Holds(b, v, isEmail) && Holds(c, v, isEmail) && Holds(d, v, isEmail)
  {
    assert [a, b, c, d][1..] == [b, c, d];
    AllHold3(b, c, d, v, isEmail);
  }

  /** A property passes when it is optional and null or undefined (every other rule is
      then skipped), or when it passes all its rules. */
  ghost predicate FieldValid(f: Field, obj: Object, isEmail: string -> bool) {
    var v := Get(obj, f.name);
    (f.optional && (v == Undefined || v == Null)) ||
    AllHold(f.rules, v, isEmail)
  }

  /** `validate(obj)` reports no error: every decorated property passes.  Properties
      without decorators are not looked at. */
  ghost predicate DtoValid(fields: seq<Field>, obj: Object, isEmail: string -> bool) {
    forall i :: 0 <= i < |fields| ==> FieldValid(fields[i], obj, isEmail)
  }

  const PASSWORD_RULES: seq<Rule> :=
    [IsString, IsNotEmpty, MatchesPassword, Length(PASSWORD_MIN_LENGTH, PASSWORD_MAX_LENGTH)]

  /** CreateUserDto (create.dto.ts:4-28).  The bound of `name` is
      `Constants.FIRST_NAME_MAX_LENGTH`, which the constants do not define: `nameMax`. */
  function CreateUserDto(nameMax: Option<int>): seq<Field> {
    [Field("name", false, [IsString, IsNotEmpty, MaxLength(nameMax)]),
     Field("email", false, [IsString, IsNotEmpty, IsEmail, MaxLength(Some(EMAIL_MAX_LENGTH))]),
     Field("password", false, PASSWORD_RULES),
     Field("mobile", false, [IsString, IsNotEmpty, MaxLength(Some(MOBILE_MAX_LENGTH))])]
  }

  /** ResetPasswordDto (reset-password.dto.ts:4-15). */
  const RESET_PASSWORD_DTO: seq<Field> :=
    [Field("token", false, [IsNotEmpty]),
     Field("password", false, PASSWORD_RULES)]

  const TITLE_RULES: seq<Rule> :=
    [IsString, IsNotEmpty, MaxLength(Some(PRODUCT_TITLE_MAX_LENGTH)), MinLength(PRODUCT_TITLE_MIN_LENGTH)]

  /** CreateProductDto (create-product.dto.ts:4-34). */
  const CREATE_PRODUCT_DTO: seq<Field> :=
    [Field("title", false, TITLE_RULES),
     Field("imageUrl", false, [IsString, IsNotEmpty]),
     Field("price", false, [IsNumber, IsNotEmpty]),
     Field("description", false, [IsString, IsNotEmpty]),
     Field("category", false, [IsString, IsNotEmpty]),
     Field("rating", true, [IsString]),
     Field("discount", true, [IsString])]

  /** UpdateProductDto (update-product.dto.ts:4-34): every property optional, and none
      carries `@IsNotEmpty()`. */
  const UPDATE_PRODUCT_DTO: seq<Field> :=
    [Field("title", true, [IsString, MaxLength(Some(PRODUCT_TITLE_MAX_LENGTH)), MinLength(PRODUCT_TITLE_MIN_LENGTH)]),
     Field("imageUrl", true, [IsString]),
     Field("price", true, [IsNumber]),
     Field("description", true, [IsString]),
     Field("category", true, [IsString]),
     Field("rating", true, [IsString]),
     Field("discount", true, [IsString])]

  /** Some character of `s` is of the class. */
  ghost predicate Contains(s: string, kind: char -> bool) {
    exists i :: 0 <= i < |s| && kind(s[i])
  }

  /** A line with no line terminator: its lookaheads are plain "contains" tests. */
  lemma AheadOnOneLine(s: string, kind: char -> bool)
    requires forall k :: 0 <= k < |s| ==> !LineTerminator(s[k])
    ensures Ahead(s, kind) <==> Contains(s, kind)
  {
    if Contains(s, kind) {
      var i :| 0 <= i < |s| && kind(s[i]);
      assert forall k :: 0 <= k < i ==> !LineTerminator(s[k]);
    }
  }

  /** The password pattern: one line holding a digit, a lower-case letter, an upper-case
      letter and a character that is none of these. */
  lemma PasswordPatternSpec(s: string)
    ensures PasswordPattern(s) <==>
      (forall k :: 0 <= k < |s| ==> !LineTerminator(s[k])) &&
      Contains(s, Digit) && Contains(s, Lower) && Contains(s, Upper) && Contains(s, Special)
  {
    if forall k :: 0 <= k < |s| ==> !LineTerminator(s[k]) {
      AheadOnOneLine(s, Digit);
      AheadOnOneLine(s, Lower);
      AheadOnOneLine(s, Upper);
      AheadOnOneLine(s, Special);
    }
  }

  /** The password rules of sign-up and of reset, spelled out. */
  lemma PasswordRulesSpec(v: Value, isEmail: string -> bool)
    ensures FieldValid(Field("password", false, PASSWORD_RULES), map["password" := v], isEmail) <==>
      v.Str? && v.s != "" && (forall k :: 0 <= k < |v.s| ==> !LineTerminator(v.s[k])) &&
      Contains(v.s, Digit) && Contains(v.s, Lower) && Contains(v.s, Upper) && Contains(v.s, Special) &&
      PASSWORD_MIN_LENGTH <= Len(v.s) <= PASSWORD_MAX_LENGTH
  {
    var f := Field("password", false, PASSWORD_RULES);
    assert Get(map["password" := v], "password") == v;
    AllHold4(IsString, IsNotEmpty, MatchesPassword, Length(PASSWORD_MIN_LENGTH, PASSWORD_MAX_LENGTH), v, isEmail);
    if v.Str? {
      PasswordPatternSpec(v.s);
    }
  }

  /** A password passes the reset form iff it passes the sign-up form. */
  lemma SamePasswordRules(obj: Object, nameMax: Option<int>, isEmail: string -> bool)
    ensures CreateUserDto(nameMax)[2] == RESET_PASSWORD_DTO[1]
    ensures FieldValid(CreateUserDto(nameMax)[2], obj, isEmail) <==> FieldValid(RESET_PASSWORD_DTO[1], obj, isEmail)
  {
  }

  /** A new user: a non-empty name (within `nameMax` when it is defined), a non-empty
      e-mail address of at most 255 characters, a valid password and a non-empty mobile
      number of at most 10 characters. */
  lemma CreateUserSpec(obj: Object, nameMax: Option<int>, isEmail: string -> bool)
    ensures DtoValid(CreateUserDto(nameMax), obj, isEmail) <==>
      var name, email, password, mobile := Get(obj, "name"), Get(obj, "email"),
                                            Get(obj, "password"), Get(obj, "mobile");
      name.Str? && name.s != "" && (nameMax.Some? ==> Len(name.s) <= nameMax.value) &&
      email.Str? && email.s != "" && isEmail(email.s) && Len(email.s) <= EMAIL_MAX_LENGTH &&
      FieldValid(Field("password", false, PASSWORD_RULES), map["password" := password], isEmail) &&
      mobile.Str? && mobile.s != "" && Len(mobile.s) <= MOBILE_MAX_LENGTH
  {
    var fields := CreateUserDto(nameMax);
    var name, email, mobile := Get(obj, "name"), Get(obj, "email"), Get(obj, "mobile");
    AllHold3(IsString, IsNotEmpty, MaxLength(nameMax), name, isEmail);
    AllHold4(IsString, IsNotEmpty, IsEmail, MaxLength(Some(EMAIL_MAX_LENGTH)), email, isEmail);
    AllHold3(IsString, IsNotEmpty, MaxLength(Some(MOBILE_MAX_LENGTH)), mobile, isEmail);
    assert FieldValid(fields[2], obj, isEmail) <==>
           FieldValid(Field("password", false, PASSWORD_RULES), map["password" := Get(obj, "password")], isEmail);
    assert DtoValid(fields, obj, isEmail) <==>
           FieldValid(fields[0], obj, isEmail) && FieldValid(fields[1], obj, isEmail) &&
           FieldValid(fields[2], obj, isEmail) && FieldValid(fields[3], obj, isEmail);
  }

  /** With the bound undefined, as the constants are written, any non-empty string is a
      name. */
  lemma NameUnbounded(obj: Object, isEmail: string -> bool)
    requires Get(obj, "name").Str? && Get(obj, "name").s != ""
    ensures FieldValid(CreateUserDto(None)[0], obj, isEmail)
  {
  }

  /** A reset request: a token that is not "", null or undefined, and a valid password. */
  lemma ResetPasswordSpec(obj: Object, isEmail: string -> bool)
    ensures DtoValid(RESET_PASSWORD_DTO, obj, isEmail) <==>
      NotEmpty(Get(obj, "token")) &&
      FieldValid(Field("password", false, PASSWORD_RULES), map["password" := Get(obj, "password")], isEmail)
  {
    assert DtoValid(RESET_PASSWORD_DTO, obj, isEmail) <==>
           FieldValid(RESET_PASSWORD_DTO[0], obj, isEmail) && FieldValid(RESET_PASSWORD_DTO[1], obj, isEmail);
  }

  /** A string that is absent, null or present. */
  predicate OptionalString(v: Value) { v == Undefined || v == Null || v.Str? }

  /** A new product: a title of 2 to 15 characters, non-empty strings for image, description
      and category, a number for the price, and rating and discount strings when present. */
  lemma CreateProductSpec(obj: Object, isEmail: string -> bool)
    ensures DtoValid(CREATE_PRODUCT_DTO, obj, isEmail) <==>
      Get(obj, "title").Str? &&
      PRODUCT_TITLE_MIN_LENGTH <= Len(Get(obj, "title").s) <= PRODUCT_TITLE_MAX_LENGTH &&
      Get(obj, "imageUrl").Str? && Get(obj, "imageUrl").s != "" &&
      Get(obj, "price").Num? &&
      Get(obj, "description").Str? && Get(obj, "description").s != "" &&
      Get(obj, "category").Str? && Get(obj, "category").s != "" &&
      OptionalString(Get(obj, "rating")) && OptionalString(Get(obj, "discount"))
  {
    var f := CREATE_PRODUCT_DTO;
    AllHold4(IsString, IsNotEmpty, MaxLength(Some(PRODUCT_TITLE_MAX_LENGTH)), MinLength(PRODUCT_TITLE_MIN_LENGTH),
             Get(obj, "title"), isEmail);
    AllHold2(IsString, IsNotEmpty, Get(obj, "imageUrl"), isEmail);
    AllHold2(IsNumber, IsNotEmpty, Get(obj, "price"), isEmail);
    AllHold2(IsString, IsNotEmpty, Get(obj, "description"), isEmail);
    AllHold2(IsString, IsNotEmpty, Get(obj, "category"), isEmail);
    AllHold1(IsString, Get(obj, "rating"), isEmail);
    AllHold1(IsString, Get(obj, "discount"), isEmail);
    assert DtoValid(f, obj, isEmail) <==>
           FieldValid(f[0], obj, isEmail) && FieldValid(f[1], obj, isEmail) &&
           FieldValid(f[2], obj, isEmail) && FieldValid(f[3], obj, isEmail) &&
           FieldValid(f[4], obj, isEmail) && FieldValid(f[5], obj, isEmail) &&
           FieldValid(f[6], obj, isEmail);
  }

  /** A product update: each property, when present and not null, of the create rules'
      type, and a present title of 2 to 15 characters. */
  lemma UpdateProductSpec(obj: Object, isEmail: string -> bool)
    ensures DtoValid(UPDATE_PRODUCT_DTO, obj, isEmail) <==>
      (Get(obj, "title") == Undefined || Get(obj, "title") == Null ||
       (Get(obj, "title").Str? &&
        PRODUCT_TITLE_MIN_LENGTH <= Len(Get(obj, "title").s) <= PRODUCT_TITLE_MAX_LENGTH)) &&
      OptionalString(Get(obj, "imageUrl")) &&
      (Get(obj, "price") == Undefined || Get(obj, "price") == Null || Get(obj, "price").Num?) &&
      OptionalString(Get(obj, "description")) && OptionalString(Get(obj, "category")) &&
      OptionalString(Get(obj, "rating")) && OptionalString(Get(obj, "discount"))
  {
    var f := UPDATE_PRODUCT_DTO;
    AllHold3(IsString, MaxLength(Some(PRODUCT_TITLE_MAX_LENGTH)), MinLength(PRODUCT_TITLE_MIN_LENGTH),
             Get(obj, "title"), isEmail);
    AllHold1(IsNumber, Get(obj, "price"), isEmail);
    AllHold1(IsString, Get(obj, "imageUrl"), isEmail);
    AllHold1(IsString, Get(obj, "description"), isEmail);
    AllHold1(IsString, Get(obj, "category"), isEmail);
    AllHold1(IsString, Get(obj, "rating"), isEmail);
    AllHold1(IsString, Get(obj, "discount"), isEmail);
    assert DtoValid(f, obj, isEmail) <==>
           FieldValid(f[0], obj, isEmail) && FieldValid(f[1], obj, isEmail) &&
           FieldValid(f[2], obj, isEmail) && FieldValid(f[3], obj, isEmail) &&
           FieldValid(f[4], obj, isEmail) && FieldValid(f[5], obj, isEmail) &&
           FieldValid(f[6], obj, isEmail);
  }

  /** Whatever creates a product may also update one. */
  lemma CreateImpliesUpdate(obj: Object, isEmail: string -> bool)
    requires DtoValid(CREATE_PRODUCT_DTO, obj, isEmail)
    ensures DtoValid(UPDATE_PRODUCT_DTO, obj, isEmail)
  {
    CreateProductSpec(obj, isEmail);
    UpdateProductSpec(obj, isEmail);
  }

  /** An empty update is valid, and so is a title alone: the other properties are
      optional. */
  lemma EmptyUpdateValid(title: string, isEmail: string -> bool)
    requires PRODUCT_TITLE_MIN_LENGTH <= Len(title) <= PRODUCT_TITLE_MAX_LENGTH
    ensures DtoValid(UPDATE_PRODUCT_DTO, map[], isEmail)
    ensures DtoValid(UPDATE_PRODUCT_DTO, map["title" := Str(title)], isEmail)
  {
    UpdateProductSpec(map[], isEmail);
    UpdateProductSpec(map["title" := Str(title)], isEmail);
  }

  /** The converse fails: an update without a title is not a valid new product. */
  lemma UpdateDoesNotImplyCreate(isEmail: string -> bool)
    ensures DtoValid(UPDATE_PRODUCT_DTO, map[], isEmail)
    ensures !DtoValid(CREATE_PRODUCT_DTO, map[], isEmail)
  {
    UpdateProductSpec(map[], isEmail);
    CreateProductSpec(map[], isEmail);
  }
}
