/** The `User` model: its column validators, the `beforeSave` hook that hashes
    a changed password, token generation with its configurable expiry, and the
    two serialisations (`toProfileJSON`, `toAuthJSON`). Password hashing
    (bcrypt, with its random salt) and token signing (a JSON Web Token,
    RFC 7519) are parameters of the model. */
module UserModel {
  import opened Common
  import opened Errors
  import opened Schema

  // ---- Configuration ------------------------------------------------------

  /** `process.env.JWT_SECRET || 'secret'`. */
  function JwtSecret(env: Option<string>): (secret: string)
    ensures Truthy(env) ==> secret == env.value
    ensures !Truthy(env) ==> secret == "secret"
  {
    if Truthy(env) then env.value else "secret"
  }

  // ---- parseInt -----------------------------------------------------------

  /** The value of `c` as a digit in base `radix` (10 or 16), letters in
      either case. */
  function DigitValue(c: char, radix: nat): (d: Option<nat>)
    ensures d.Some? ==> d.value < radix
  {
    if '0' <= c <= '9' && (c as int - '0' as int) < radix then Some(c as int - '0' as int)
    else if 'a' <= c <= 'z' && (c as int - 'a' as int) + 10 < radix then Some(c as int - 'a' as int + 10)
    else if 'A' <= c <= 'Z' && (c as int - 'A' as int) + 10 < radix then Some(c as int - 'A' as int + 10)
    else None
  }

  /** The length of the longest prefix of `s` made of digits in base `radix`. */
  function DigitPrefixLen(s: string, radix: nat): (n: nat)
    ensures n <= |s|
    ensures forall i :: 0 <= i < n ==> DigitValue(s[i], radix).Some?
    ensures n < |s| ==> DigitValue(s[n], radix).None?
  {
    if s != [] && DigitValue(s[0], radix).Some? then 1 + DigitPrefixLen(s[1..], radix) else 0
  }

  /** The number written by a string of digits in base `radix`. */
  function DigitsValue(s: string, radix: nat): int
    requires forall i :: 0 <= i < |s| ==> DigitValue(s[i], radix).Some?
  {
    if s == [] then 0
    else
      var init := s[..|s| - 1];
      assert forall i :: 0 <= i < |init| ==> init[i] == s[i];
      DigitsValue(init, radix) * radix + DigitValue(s[|s| - 1], radix).value
  }

  /** The text after the sign: a '0x'/'0X' prefix selects base 16; the
      longest run of digits that follows is the value, and no digit at all
      is `NaN` (`None`). Trailing text is ignored. */
  function ParseMagnitude(u: string): Option<int>
  {
    var hex := |u| >= 2 && u[0] == '0' && (u[1] == 'x' || u[1] == 'X');
    var radix := if hex then 16 else 10;
    var v := if hex then u[2..] else u;
    var n := DigitPrefixLen(v, radix);
    if n == 0 then None else Some(DigitsValue(v[..n], radix))
  }

  /** `parseInt(s)` with no radix: leading whitespace is skipped, then an
      optional sign, then the magnitude. */
  function ParseInt(s: string): Option<int>
  {
    var t := TrimStart(s);
    var sign := if t != [] && t[0] == '-' then -1 else 1;
    var u := if t != [] && (t[0] == '-' || t[0] == '+') then t[1..] else t;
    match ParseMagnitude(u)
    case None => None
    case Some(m) => Some(sign * m)
  }

  lemma {:induction false} DigitsValueDecimal(n: nat)
    ensures forall i :: 0 <= i < |Decimal(n)| ==> DigitValue(Decimal(n)[i], 10).Some?
    ensures DigitsValue(Decimal(n), 10) == n
  {
    var d := Decimal(n);
    assert forall i :: 0 <= i < |d| ==> DigitValue(d[i], 10).Some? by {
      forall i | 0 <= i < |d| ensures DigitValue(d[i], 10).Some? {
        assert IsDecimalDigit(d[i]);
      }
    }
    if n >= 10 {
      DigitsValueDecimal(n / 10);
      assert d[..|d| - 1] == Decimal(n / 10);
    }
  }

  /** The digit prefix of a run of digits followed by a non-digit is that run. */
  lemma {:induction false} DigitPrefixLenAppend(d: string, rest: string, radix: nat)
    requires forall i :: 0 <= i < |d| ==> DigitValue(d[i], radix).Some?
    requires rest == [] || DigitValue(rest[0], radix).None?
    ensures DigitPrefixLen(d + rest, radix) == |d|
  {
    if d != [] {
      assert (d + rest)[0] == d[0];
      assert (d + rest)[1..] == d[1..] + rest;
      DigitPrefixLenAppend(d[1..], rest, radix);
    } else {
      assert d + rest == rest;
    }
  }

  /** Decimal digits followed by text that is neither a digit nor an 'x'
      read back as that number: only the longest digit prefix counts. */
  lemma {:induction false} MagnitudeDecimalPrefix(n: nat, rest: string)
    requires rest == [] || (!IsDecimalDigit(rest[0]) && rest[0] != 'x' && rest[0] != 'X')
    ensures ParseMagnitude(Decimal(n) + rest) == Some(n)
  {
    var d := Decimal(n);
    var s := d + rest;
    assert !(|s| >= 2 && s[0] == '0' && (s[1] == 'x' || s[1] == 'X')) by {
      if |s| >= 2 {
        if |d| >= 2 { assert s[1] == d[1] && IsDecimalDigit(d[1]); } else { assert s[1] == rest[0]; }
      }
    }
    DigitsValueDecimal(n);
    DigitPrefixLenAppend(d, rest, 10);
    assert s[..|d|] == d;
  }

  /** A number followed by text that is neither a digit nor an 'x' parses back
      to that number: `parseInt` reads the longest digit prefix and ignores the
      rest, so a unit suffix such as the 'd' of '7d' is dropped. */
  lemma {:induction false} ParseIntDecimalPrefix(n: nat, rest: string)
    requires rest == [] || (!IsDecimalDigit(rest[0]) && rest[0] != 'x' && rest[0] != 'X')
    ensures ParseInt(Decimal(n) + rest) == Some(n)
  {
    var d := Decimal(n);
    var s := d + rest;
    assert s[0] == d[0] && IsDecimalDigit(d[0]);
    assert !IsJsSpace(s[0]) && s[0] != '-' && s[0] != '+';
    assert TrimStart(s) == s;
    MagnitudeDecimalPrefix(n, rest);
  }

  /** A decimal rendering parses back to the number. */
  lemma ParseIntDecimal(n: nat)
    ensures ParseInt(Decimal(n)) == Some(n)
  {
    var d := Decimal(n);
    assert d + "" == d;
    ParseIntDecimalPrefix(n, "");
  }

  /** Text without a leading digit, sign or space is `NaN`. */
  lemma ParseIntNoDigits(s: string)
    requires s != [] && DigitValue(s[0], 10).None? && !IsJsSpace(s[0]) && s[0] != '-' && s[0] != '+'
    ensures ParseInt(s) == None
  {
    assert TrimStart(s) == s;
  }

  // ---- generateJWT --------------------------------------------------------

  const DefaultExpiry := 86400

  /** The `expiresIn` option: one day, unless the configured value is a
      non-empty string that `parseInt` reads as a number (in seconds). */
  function ExpiresIn(env: Option<string>): int
  {
    if Truthy(env) && ParseInt(env.value).Some? then ParseInt(env.value).value else DefaultExpiry
  }

  /** No configuration, or an empty one, keeps the one-day default. */
  lemma ExpiresInDefault(env: Option<string>)
    requires !Truthy(env)
    ensures ExpiresIn(env) == 86400
  {
  }

  /** A configured number of seconds is used as given. */
  lemma ExpiresInSeconds(n: nat)
    ensures ExpiresIn(Some(Decimal(n))) == n
  {
    ParseIntDecimal(n);
  }

  /** A duration with a unit, as the token library itself would accept it
      ('7d'), is read by `parseInt` as its leading number, so '7d' yields
      7 seconds and not 7 days. */
  lemma ExpiresInDropsUnit(n: nat, unit: char)
    requires 'a' <= unit <= 'z' && unit != 'x'
    ensures ExpiresIn(Some(Decimal(n) + [unit])) == n
  {
    ParseIntDecimalPrefix(n, [unit]);
  }

  /** A value `parseInt` cannot read keeps the default. */
  lemma ExpiresInUnreadable(s: string)
    requires s != [] && DigitValue(s[0], 10).None? && !IsJsSpace(s[0]) && s[0] != '-' && s[0] != '+'
    ensures ExpiresIn(Some(s)) == 86400
  {
    ParseIntNoDigits(s);
  }

  /** The claims signed into a token: exactly id, username and email. */
  datatype TokenClaims = TokenClaims(id: UserId, username: string, email: string)

  /** `jwt.sign(payload, secret, {expiresIn})`. */
  type Signer = (TokenClaims, string, int) -> string

  /** `generateJWT`: signs the user's id, username and email (never the
      password) with the configured secret and expiry. */
  method GenerateJwt(u: User, secretEnv: Option<string>, expiresEnv: Option<string>, sign: Signer)
    returns (token: string)
    ensures token == sign(TokenClaims(u.id, u.username, u.email), JwtSecret(secretEnv), ExpiresIn(expiresEnv))
  {
    var payload := TokenClaims(u.id, u.username, u.email);
    var secret := JwtSecret(secretEnv);
    var expiresIn := DefaultExpiry;
    if Truthy(expiresEnv) {
      var parsed := ParseInt(expiresEnv.value);
      if parsed.Some? {
        expiresIn := parsed.value;
      }
    }
    token := sign(payload, secret, expiresIn);
  }

  // ---- Serialisation ------------------------------------------------------

  /** A profile as the API returns it. */
  datatype ProfileView = ProfileView(username: string, bio: string, image: string, following: bool)

  /** The `user` object of the authentication responses; it has no password. */
  datatype AuthUser = AuthUser(email: string, token: string, username: string, bio: string, image: string)

  /** A user's profile with the given `following` flag: a null or empty
      bio or image becomes ''. */
  function ProfileOf(u: User, following: bool): (p: ProfileView)
    ensures p.username == u.username && p.following == following
    ensures p.bio == (if Truthy(u.bio) then u.bio.value else "")
    ensures p.image == (if Truthy(u.image) then u.image.value else "")
  {
    ProfileView(u.username, OrEmpty(u.bio), OrEmpty(u.image), following)
  }

  /** `toProfileJSON`: the caller's id is accepted but ignored, so
      `following` is always false. */
  function ToProfileJson(u: User, currentUserId: Option<UserId>): (p: ProfileView)
    ensures !p.following
    ensures p.username == u.username
  {
    ProfileOf(u, false)
  }

  /** `toAuthJSON`: email, a fresh token, username, and bio/image with null
      rendered as ''. */
  method ToAuthJson(u: User, secretEnv: Option<string>, expiresEnv: Option<string>, sign: Signer)
    returns (a: AuthUser)
    ensures a.email == u.email && a.username == u.username
    ensures a.token == sign(TokenClaims(u.id, u.username, u.email), JwtSecret(secretEnv), ExpiresIn(expiresEnv))
    ensures a.bio == OrEmpty(u.bio) && a.image == OrEmpty(u.image)
  {
    var token := GenerateJwt(u, secretEnv, expiresEnv, sign);
    a := AuthUser(u.email, token, u.username, OrEmpty(u.bio), OrEmpty(u.image));
  }

  // ---- Validation and the save hook ---------------------------------------

  /** Sequelize's `len` validator for the password column. */
  predicate PasswordLengthOk(p: string) {
    6 <= |p| <= 100
  }

  /** The validators of the columns `save` checks, in declaration order:
      every column of a new record (`loaded == None`), only the changed
      columns of a loaded one. Every validator of a checked column runs. */
  function UserIssues(row: User, loaded: Option<User>, isEmail: string -> bool): (r: seq<PathMessage>)
    ensures r == [] <==>
              && (loaded.None? || loaded.value.username != row.username ==> NotBlank(row.username))
              && (loaded.None? || loaded.value.email != row.email ==> isEmail(row.email) && NotBlank(row.email))
              && (loaded.None? || loaded.value.password != row.password ==>
                    NotBlank(row.password) && PasswordLengthOk(row.password))
    ensures forall x :: x in r ==> x.path in {"username", "email", "password"}
  {
    var checkUsername := loaded.None? || loaded.value.username != row.username;
    var checkEmail := loaded.None? || loaded.value.email != row.email;
    var checkPassword := loaded.None? || loaded.value.password != row.password;
    (if checkUsername && !NotBlank(row.username) then [PathMessage("username", "Username cannot be empty")] else [])
    + (if checkEmail && !isEmail(row.email) then [PathMessage("email", "Invalid email format")] else [])
    + (if checkEmail && !NotBlank(row.email) then [PathMessage("email", "Email cannot be empty")] else [])
    + (if checkPassword && !NotBlank(row.password) then [PathMessage("password", "Password cannot be empty")] else [])
    + (if checkPassword && !PasswordLengthOk(row.password)
       then [PathMessage("password", "Password must be between 6 and 100 characters")] else [])
  }

  /** A user instance being saved: the row as loaded from the table (`None`
      for a new one) and the attribute values the controller has set. */
  class UserRecord {
    const loaded: Option<User>
    var id: UserId
    var username: string
    var email: string
    var password: string
    var bio: Option<string>
    var image: Option<string>

    /** An instance loaded from the table. */
    constructor Load(u: User)
      ensures loaded == Some(u) && Row() == u
    {
      loaded := Some(u);
      id, username, email, password, bio, image := u.id, u.username, u.email, u.password, u.bio, u.image;
    }

    /** `User.build({username, email, password})`: bio and image are null. */
    constructor Build(id: UserId, username: string, email: string, password: string)
      ensures loaded == None && Row() == User(id, username, email, password, None, None)
    {
      loaded := None;
      this.id, this.username, this.email, this.password, bio, image := id, username, email, password, None, None;
    }

    function Row(): User
      reads this
    {
      User(id, username, email, password, bio, image)
    }

    /** `changed('password')`: a new record, or a value other than the stored one. */
    predicate PasswordChanged()
      reads this
    {
      loaded.None? || password != loaded.value.password
    }

    /** `beforeSave`: the password is replaced by its hash exactly when it
        changed; an unchanged password (already a hash) is kept as stored. */
    method BeforeSave(hash: string -> string)
      modifies this
      ensures old(PasswordChanged()) ==> Row() == old(Row()).(password := hash(old(password)))
      ensures !old(PasswordChanged()) ==> Row() == old(Row())
    {
      if PasswordChanged() {
        password := hash(password);
      }
    }
  }
}
