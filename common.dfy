/** Values shared by every part of the model: optional values, JavaScript
    truthiness of strings, the whitespace set of ECMAScript, and the decimal
    rendering of a non-negative number (`Number.prototype.toString`). */
module Common {

  /** `undefined`/`null` versus a present value. */
  datatype Option<+T> = None | Some(value: T)

  /** A string field of a JSON request body: missing, `null`, or a string. */
  datatype Field = Absent | Null | Text(text: string)

  /** A `tagList` field of a JSON request body: missing, an array of strings,
      or some other value (`null`, a string, a number, an object). */
  datatype ListField = ListAbsent | List(items: seq<string>) | NotAList

  /** How a validator reads a field: `undefined` and `null` become ''. */
  function FieldString(f: Field): (r: string)
    ensures f.Text? ==> r == f.text
    ensures !f.Text? ==> r == ""
  {
    if f.Text? then f.text else ""
  }

  /** A field that JavaScript treats as true: a non-empty string. */
  predicate TruthyField(f: Field) {
    f.Text? && f.text != ""
  }

  /** A string that JavaScript treats as true: present and not ''. */
  predicate Truthy(s: Option<string>) {
    s.Some? && s.value != ""
  }

  /** JavaScript `x || ''` applied to a nullable text column (bio, image). */
  function OrEmpty(s: Option<string>): (r: string)
    ensures Truthy(s) ==> r == s.value
    ensures !Truthy(s) ==> r == ""
  {
    if s.Some? then s.value else ""
  }

  predicate StartsWith(s: string, prefix: string) {
    |prefix| <= |s| && s[..|prefix|] == prefix
  }

  /** ECMAScript WhiteSpace and LineTerminator code points: what
      `String.prototype.trim` removes and `parseInt` skips. */
  predicate IsJsSpace(c: char) {
    c in {'\t', '\n', '\U{000B}', '\U{000C}', '\r', ' ', '\U{00A0}', '\U{1680}',
          '\U{2028}', '\U{2029}', '\U{202F}', '\U{205F}', '\U{3000}', '\U{FEFF}'}
    || '\U{2000}' <= c <= '\U{200A}'
  }

  /** Sequelize's `notEmpty` validator: the value is not made of whitespace
      only (so '' and '   ' both fail). */
  predicate NotBlank(s: string) {
    exists i :: 0 <= i < |s| && !IsJsSpace(s[i])
  }

  function TrimStart(s: string): string
  {
    if s != [] && IsJsSpace(s[0]) then TrimStart(s[1..]) else s
  }

  function TrimEnd(s: string): string
  {
    if s != [] && IsJsSpace(s[|s| - 1]) then TrimEnd(s[..|s| - 1]) else s
  }

  /** `String.prototype.trim`. */
  function Trim(s: string): string
  {
    TrimEnd(TrimStart(s))
  }

  /** `trim` leaves '' exactly when the input is blank, and otherwise a
      string that starts and ends with a non-space. */
  lemma {:induction false} TrimSpec(s: string)
    ensures Trim(s) != [] <==> NotBlank(s)
    ensures Trim(s) != [] ==> !IsJsSpace(Trim(s)[0]) && !IsJsSpace(Trim(s)[|Trim(s)| - 1])
  {
    TrimStartSpec(s);
    TrimEndSpec(TrimStart(s));
  }

  lemma {:induction false} TrimStartSpec(s: string)
    ensures NotBlank(TrimStart(s)) <==> NotBlank(s)
    ensures TrimStart(s) != [] ==> !IsJsSpace(TrimStart(s)[0])
  {
    if s != [] && IsJsSpace(s[0]) {
      TrimStartSpec(s[1..]);
      if NotBlank(s) {
        var k :| 0 <= k < |s| && !IsJsSpace(s[k]);
        assert s[1..][k - 1] == s[k];
      }
      if NotBlank(s[1..]) {
        var k :| 0 <= k < |s[1..]| && !IsJsSpace(s[1..][k]);
        assert s[k + 1] == s[1..][k];
      }
    }
  }

  lemma {:induction false} TrimEndSpec(s: string)
    ensures |TrimEnd(s)| <= |s| && TrimEnd(s) == s[..|TrimEnd(s)|]
    ensures TrimEnd(s) != [] <==> NotBlank(s)
    ensures TrimEnd(s) != [] ==> !IsJsSpace(TrimEnd(s)[|TrimEnd(s)| - 1])
  {
    if s != [] && IsJsSpace(s[|s| - 1]) {
      var init := s[..|s| - 1];
      TrimEndSpec(init);
      if NotBlank(s) {
        var k :| 0 <= k < |s| && !IsJsSpace(s[k]);
        assert init[k] == s[k];
      }
      if NotBlank(init) {
        var k :| 0 <= k < |init| && !IsJsSpace(init[k]);
        assert s[k] == init[k];
      }
    } else if s != [] {
      assert !IsJsSpace(s[|s| - 1]);
    }
  }

  /** `toLowerCase` on the ASCII letters A-Z; every other character is kept. */
  function AsciiLower(s: string): (r: string)
    ensures |r| == |s|
    ensures forall i :: 0 <= i < |s| ==> (if 'A' <= s[i] <= 'Z' then r[i] as int == s[i] as int + 32 else r[i] == s[i])
  {
    if s == [] then []
    else [if 'A' <= s[0] <= 'Z' then (s[0] as int + 32) as char else s[0]] + AsciiLower(s[1..])
  }

  /** Lower-casing neither creates nor removes whitespace. */
  lemma AsciiLowerBlank(s: string)
    ensures NotBlank(AsciiLower(s)) <==> NotBlank(s)
  {
    var r := AsciiLower(s);
    if NotBlank(s) {
      var k :| 0 <= k < |s| && !IsJsSpace(s[k]);
      assert !IsJsSpace(r[k]);
    }
    if NotBlank(r) {
      var k :| 0 <= k < |r| && !IsJsSpace(r[k]);
      assert !IsJsSpace(s[k]);
    }
  }

  function DigitChar(d: nat): (c: char)
    requires d < 10
    ensures '0' <= c <= '9'
    ensures c as int - '0' as int == d
  {
    (d + '0' as int) as char
  }

  predicate IsDecimalDigit(c: char) {
    '0' <= c <= '9'
  }

  /** `n.toString()` for a non-negative integer. */
  function Decimal(n: nat): (r: string)
    ensures 1 <= |r|
    ensures forall i :: 0 <= i < |r| ==> IsDecimalDigit(r[i])
    ensures n < 10 <==> |r| == 1
  {
    if n < 10 then [DigitChar(n)] else Decimal(n / 10) + [DigitChar(n % 10)]
  }
}
