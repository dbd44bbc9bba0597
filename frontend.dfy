/**
 * The decision logic of the browser page: the client-side movie search,
 * the check made before a new movie is submitted, and the choice of the
 * message thrown when the server answers with an error.  JavaScript's
 * `trim`, `toLowerCase`, `includes` and `parseInt` are written out below;
 * `toLowerCase` is modelled on ASCII letters only.
 */
module Frontend {
  import opened Http
  import Query
  import Movies

  // ---------------------------------------------------------------------
  // String helpers with JavaScript's meaning

  /** The characters `String.prototype.trim` removes: WhiteSpace and LineTerminator. */
  predicate IsJsWhitespace(c: char) {
    || c == '\t' || c == '\n' || c == '\U{B}' || c == '\U{C}' || c == '\r' || c == ' '
    || c == '\U{A0}' || c == '\U{1680}' || ('\U{2000}' <= c <= '\U{200A}')
    || c == '\U{2028}' || c == '\U{2029}' || c == '\U{202F}' || c == '\U{205F}'
    || c == '\U{3000}' || c == '\U{FEFF}'
  }

  /** Every character of `s` from position `lo` up to `hi` is whitespace. */
  ghost predicate WhitespaceBetween(s: string, lo: int, hi: int) {
    forall i :: lo <= i < hi && 0 <= i < |s| ==> IsJsWhitespace(s[i])
  }

  ghost predicate AllWhitespace(s: string) {
    WhitespaceBetween(s, 0, |s|)
  }

  /** How many whitespace characters `s` starts with. */
  function LeadingWhitespace(s: string): (n: nat)
    ensures n <= |s|
    ensures WhitespaceBetween(s, 0, n)
    ensures n < |s| ==> !IsJsWhitespace(s[n])
  {
    if s == [] || !IsJsWhitespace(s[0]) then 0
    else
      var n := 1 + LeadingWhitespace(s[1..]);
      assert forall i :: 1 <= i < n ==> s[i] == s[1..][i - 1];
      n
  }

  /** How many whitespace characters `s` ends with. */
  function TrailingWhitespace(s: string): (n: nat)
    ensures n <= |s|
    ensures WhitespaceBetween(s, |s| - n, |s|)
    ensures n < |s| ==> !IsJsWhitespace(s[|s| - n - 1])
  {
    if s == [] || !IsJsWhitespace(s[|s| - 1]) then 0
    else
      var t := s[..|s| - 1];
      var n := 1 + TrailingWhitespace(t);
      assert forall i :: 0 <= i < |t| ==> s[i] == t[i];
      n
  }

  /** `r` is `s` without its `a` leading whitespace characters and a whitespace suffix. */
  ghost predicate StripsTo(s: string, a: int, r: string) {
    && 0 <= a && a + |r| <= |s|
    && r == s[a..a + |r|]
    && WhitespaceBetween(s, 0, a)
    && WhitespaceBetween(s, a + |r|, |s|)
  }

  /** `String.prototype.trim`. */
  function Trim(s: string): (r: string)
    ensures r == "" <==> AllWhitespace(s)
    ensures r != "" ==> !IsJsWhitespace(r[0]) && !IsJsWhitespace(r[|r| - 1])
    ensures StripsTo(s, LeadingWhitespace(s), r)
  {
    var a := LeadingWhitespace(s);
    var t := s[a..];
    var r := t[..|t| - TrailingWhitespace(t)];
    TrimFacts(s, a, t, TrailingWhitespace(t), r);
    r
  }

  lemma TrimFacts(s: string, a: nat, t: string, b: nat, r: string)
    requires a <= |s| && WhitespaceBetween(s, 0, a) && (a < |s| ==> !IsJsWhitespace(s[a]))
    requires t == s[a..]
    requires b <= |t| && WhitespaceBetween(t, |t| - b, |t|) && (b < |t| ==> !IsJsWhitespace(t[|t| - b - 1]))
    requires r == t[..|t| - b]
    ensures r == "" <==> AllWhitespace(s)
    ensures r != "" ==> !IsJsWhitespace(r[0]) && !IsJsWhitespace(r[|r| - 1])
    ensures StripsTo(s, a, r)
  {
    assert r == s[a..a + |r|];
    forall i | a + |r| <= i < |s| ensures IsJsWhitespace(s[i]) {
      assert s[i] == t[i - a];
    }
    if a < |s| {
      assert t[0] == s[a];
      assert b < |t|;
      assert r[0] == s[a];
      assert r[|r| - 1] == t[|t| - b - 1];
    } else {
      assert r == "";
    }
  }

  /** The ASCII part of `toLowerCase` on one character. */
  function LowerChar(c: char): (d: char)
    ensures !('A' <= d <= 'Z')
    ensures 'A' <= c <= 'Z' ==> d as int == c as int + 32
    ensures !('A' <= c <= 'Z') ==> d == c
  {
    if 'A' <= c <= 'Z' then (c as int + 32) as char else c
  }

  /** `String.prototype.toLowerCase`, on ASCII letters. */
  function ToLower(s: string): (r: string)
    ensures |r| == |s|
    ensures forall i :: 0 <= i < |s| ==> r[i] == LowerChar(s[i])
  {
    if s == [] then []
    else [LowerChar(s[0])] + ToLower(s[1..])
  }

  /** `needle` occurs in `hay` starting at position `i`. */
  ghost predicate OccursAt(needle: string, hay: string, i: int) {
    0 <= i && i + |needle| <= |hay| && hay[i..i + |needle|] == needle
  }

  /** `needle` occurs somewhere in `hay`. */
  ghost predicate Contains(hay: string, needle: string) {
    exists i :: OccursAt(needle, hay, i)
  }

  /** `String.prototype.includes`: whether `needle` occurs anywhere in `hay`. */
  function Includes(hay: string, needle: string): (b: bool)
    ensures b <==> Contains(hay, needle)
    decreases |hay|
  {
    if |needle| <= |hay| && hay[..|needle|] == needle then
      assert OccursAt(needle, hay, 0);
      true
    else if hay == [] then
      false
    else
      OccurrenceShift(hay, needle);
      Includes(hay[1..], needle)
  }

  /** Past position 0, the occurrences in `hay` are those in its tail, shifted by one. */
  lemma OccurrenceShift(hay: string, needle: string)
    requires hay != []
    requires !(|needle| <= |hay| && hay[..|needle|] == needle)
    ensures (exists i :: OccursAt(needle, hay, i)) <==> (exists i :: OccursAt(needle, hay[1..], i))
  {
    if exists i :: OccursAt(needle, hay[1..], i) {
      var i :| OccursAt(needle, hay[1..], i);
      assert hay[1..][i..i + |needle|] == hay[i + 1..i + 1 + |needle|];
      assert OccursAt(needle, hay, i + 1);
    }
    if exists i :: OccursAt(needle, hay, i) {
      var i :| OccursAt(needle, hay, i);
      assert i != 0;
      assert hay[1..][i - 1..i - 1 + |needle|] == hay[i..i + |needle|];
      assert OccursAt(needle, hay[1..], i - 1);
    }
  }

  // ---------------------------------------------------------------------
  // The search in fetchMovies

  /** A movie as the page receives it; text fields may be missing or `null`. */
  datatype MovieView = MovieView(id: int, title: Option<string>, description: Option<string>, genre: Option<string>)

  /** `(field || '')`. */
  function OrEmpty(v: Option<string>): string {
    if v.Some? then v.value else ""
  }

  /** The text searched for: the term lowercased, then trimmed. */
  function SearchKey(searchTerm: string): string {
    Trim(ToLower(searchTerm))
  }

  /** The filter callback: some lowercased field contains the search key. */
  predicate MatchesSearch(m: MovieView, key: string) {
    || Includes(ToLower(OrEmpty(m.title)), key)
    || Includes(ToLower(OrEmpty(m.description)), key)
    || Includes(ToLower(OrEmpty(m.genre)), key)
  }

  /** Some field of `m`, lowercased with a missing field read as empty, contains `key`. */
  ghost predicate FieldContains(m: MovieView, key: string) {
    || Contains(ToLower(OrEmpty(m.title)), key)
    || Contains(ToLower(OrEmpty(m.description)), key)
    || Contains(ToLower(OrEmpty(m.genre)), key)
  }

  /** `response.data || []`. */
  function Received(data: Option<seq<MovieView>>): seq<MovieView> {
    if data.Some? then data.value else []
  }

  /**
   * The list `fetchMovies` renders: everything received when the search
   * term is blank; otherwise, in the order received, exactly the movies
   * some of whose fields contain the lowercased, trimmed term, each as
   * often as it was received.
   */
  function SearchMovies(data: Option<seq<MovieView>>, searchTerm: string): (r: seq<MovieView>)
    ensures AllWhitespace(searchTerm) ==> r == Received(data)
    ensures Query.IsSubsequence(r, Received(data))
    ensures !AllWhitespace(searchTerm) ==>
      forall m :: m in r <==> m in Received(data) && FieldContains(m, SearchKey(searchTerm))
    ensures !AllWhitespace(searchTerm) ==>
      forall m :: multiset(r)[m] == if FieldContains(m, SearchKey(searchTerm)) then multiset(Received(data))[m] else 0
  {
    var movies := Received(data);
    if Trim(searchTerm) == "" then
      Query.SubsequenceOfItself(movies);
      movies
    else
      var key := Trim(ToLower(searchTerm));
      Query.Where(movies, (m: MovieView) => MatchesSearch(m, key))
  }

  /** Lowercasing changes only letters, never whitespace. */
  lemma LowerKeepsWhitespace(c: char)
    ensures IsJsWhitespace(LowerChar(c)) == IsJsWhitespace(c)
  {
  }

  lemma {:induction false} LeadingWhitespaceOfLower(s: string)
    ensures LeadingWhitespace(ToLower(s)) == LeadingWhitespace(s)
  {
    if s != [] {
      LowerKeepsWhitespace(s[0]);
      assert ToLower(s)[1..] == ToLower(s[1..]);
      LeadingWhitespaceOfLower(s[1..]);
    }
  }

  lemma {:induction false} TrailingWhitespaceOfLower(s: string)
    ensures TrailingWhitespace(ToLower(s)) == TrailingWhitespace(s)
  {
    if s != [] {
      LowerKeepsWhitespace(s[|s| - 1]);
      assert ToLower(s)[..|s| - 1] == ToLower(s[..|s| - 1]);
      TrailingWhitespaceOfLower(s[..|s| - 1]);
    }
  }

  lemma LowerSlice(s: string, i: int, j: int)
    requires 0 <= i <= j <= |s|
    ensures ToLower(s)[i..j] == ToLower(s[i..j])
  {
    var a := ToLower(s)[i..j];
    var b := ToLower(s[i..j]);
    forall k | 0 <= k < |a| ensures a[k] == b[k] {
      assert a[k] == LowerChar(s[i + k]);
      assert b[k] == LowerChar(s[i..j][k]);
    }
    assert a == b;
  }

  /** Lowercasing and trimming commute, so the search key is the trimmed term lowercased. */
  lemma LowerThenTrim(s: string)
    ensures SearchKey(s) == ToLower(Trim(s))
  {
    var ls := ToLower(s);
    var a := LeadingWhitespace(s);
    LeadingWhitespaceOfLower(s);
    var t := s[a..];
    LowerSlice(s, a, |s|);
    assert ls[a..] == ToLower(t);
    TrailingWhitespaceOfLower(t);
    var b := TrailingWhitespace(t);
    LowerSlice(t, 0, |t| - b);
    assert Trim(ls) == ToLower(t)[..|t| - b];
    assert Trim(s) == t[..|t| - b];
  }

  /** A non-blank term gives a non-empty search key. */
  lemma NonBlankKey(searchTerm: string)
    requires !AllWhitespace(searchTerm)
    ensures SearchKey(searchTerm) != ""
  {
    LowerThenTrim(searchTerm);
  }

  /** A missing field is read as empty, which contains no non-empty key. */
  lemma MissingFieldMatch(m: MovieView, key: string)
    requires key != ""
    ensures m.title.None? ==> (FieldContains(m, key) <==>
      Contains(ToLower(OrEmpty(m.description)), key) || Contains(ToLower(OrEmpty(m.genre)), key))
    ensures m.description.None? ==> (FieldContains(m, key) <==>
      Contains(ToLower(OrEmpty(m.title)), key) || Contains(ToLower(OrEmpty(m.genre)), key))
    ensures m.genre.None? ==> (FieldContains(m, key) <==>
      Contains(ToLower(OrEmpty(m.title)), key) || Contains(ToLower(OrEmpty(m.description)), key))
  {
    assert ToLower(OrEmpty(None)) == "";
    assert !Contains("", key);
  }

  /**
   * With a non-blank term, a movie missing one of its three text fields is
   * found only through the other two.
   */
  lemma MissingFieldSearch(m: MovieView, searchTerm: string)
    requires !AllWhitespace(searchTerm)
    ensures var key := SearchKey(searchTerm);
      m.title.None? ==> (FieldContains(m, key) <==>
        Contains(ToLower(OrEmpty(m.description)), key) || Contains(ToLower(OrEmpty(m.genre)), key))
    ensures var key := SearchKey(searchTerm);
      m.description.None? ==> (FieldContains(m, key) <==>
        Contains(ToLower(OrEmpty(m.title)), key) || Contains(ToLower(OrEmpty(m.genre)), key))
    ensures var key := SearchKey(searchTerm);
      m.genre.None? ==> (FieldContains(m, key) <==>
        Contains(ToLower(OrEmpty(m.title)), key) || Contains(ToLower(OrEmpty(m.description)), key))
  {
    NonBlankKey(searchTerm);
    MissingFieldMatch(m, SearchKey(searchTerm));
  }

  // ---------------------------------------------------------------------
  // parseInt

  /** The value of a digit character in radix 36 (36 when it is none). */
  function DigitValue(c: char): (v: nat)
    ensures v <= 36
    ensures v < 10 <==> '0' <= c <= '9'
    ensures '0' <= c <= '9' ==> v == c as int - '0' as int
  {
    if '0' <= c <= '9' then c as int - '0' as int
    else if 'a' <= c <= 'z' then c as int - 'a' as int + 10
    else if 'A' <= c <= 'Z' then c as int - 'A' as int + 10
    else 36
  }

  /** How many digits of the radix `s` starts with. */
  function DigitRun(s: string, radix: nat): (n: nat)
    ensures n <= |s|
    ensures forall i :: 0 <= i < n ==> DigitValue(s[i]) < radix
    ensures n < |s| ==> DigitValue(s[n]) >= radix
  {
    if s == [] || DigitValue(s[0]) >= radix then 0
    else 1 + DigitRun(s[1..], radix)
  }

  /** The number the digits spell in the radix, most significant first. */
  function DigitsValue(ds: string, radix: nat): nat {
    if ds == [] then 0
    else DigitsValue(ds[..|ds| - 1], radix) * radix + DigitValue(ds[|ds| - 1])
  }

  /**
   * The digits after the sign: a `0x` or `0X` prefix selects radix 16,
   * otherwise radix 10, and the longest run of digits is read; None when
   * there is no digit.
   */
  function Magnitude(u: string): (r: Option<nat>)
    ensures u == [] ==> r == None
  {
    var hex := |u| >= 2 && u[0] == '0' && (u[1] == 'x' || u[1] == 'X');
    var radix := if hex then 16 else 10;
    var digits := if hex then u[2..] else u;
    var n := DigitRun(digits, radix);
    if n == 0 then None else Some(DigitsValue(digits[..n], radix))
  }

  /** A magnitude with its sign applied; NaN stays NaN. */
  function Negate(negative: bool, m: Option<nat>): (r: Option<int>)
    ensures r.None? <==> m.None?
    ensures m.Some? ==> r.value == if negative then -(m.value as int) else m.value as int
  {
    if m.None? then None
    else
      var v: int := m.value;
      Some(if negative then -v else v)
  }

  /** The text after the leading whitespace: one optional sign, then the magnitude. */
  function ApplySign(t: string): Option<int> {
    if |t| > 0 && (t[0] == '-' || t[0] == '+') then Negate(t[0] == '-', Magnitude(t[1..]))
    else Negate(false, Magnitude(t))
  }

  /**
   * `parseInt` with no radix: leading whitespace and one sign are skipped
   * and the magnitude is read; None is NaN, the answer when there is no
   * digit.
   */
  function ParseInt(s: string): (r: Option<int>)
    ensures AllWhitespace(s) ==> r == None
  {
    ApplySign(s[LeadingWhitespace(s)..])
  }

  /** The decimal notation of a natural number. */
  function Decimal(n: nat): (s: string)
    ensures |s| >= 1
    ensures forall i :: 0 <= i < |s| ==> '0' <= s[i] <= '9'
    ensures s[0] == '0' ==> n == 0
  {
    var d := ['0' + (n % 10) as char];
    if n < 10 then d else Decimal(n / 10) + d
  }

  lemma {:induction false} DecimalValue(n: nat)
    ensures DigitsValue(Decimal(n), 10) == n
  {
    if n >= 10 {
      var s := Decimal(n);
      assert s[..|s| - 1] == Decimal(n / 10);
      DecimalValue(n / 10);
    }
  }

  /** A run of decimal digits followed by a non-digit is read up to the non-digit. */
  lemma {:induction false} DigitRunOfDigits(d: string, rest: string)
    requires forall i :: 0 <= i < |d| ==> '0' <= d[i] <= '9'
    requires rest == [] || !('0' <= rest[0] <= '9')
    ensures DigitRun(d + rest, 10) == |d|
  {
    if d == [] {
      assert d + rest == rest;
    } else {
      assert (d + rest)[1..] == d[1..] + rest;
      DigitRunOfDigits(d[1..], rest);
    }
  }

  /** Whitespace in front of a text that does not start with whitespace is skipped entirely. */
  lemma {:induction false} LeadingWhitespaceAfter(w: string, t: string)
    requires AllWhitespace(w)
    requires t == [] || !IsJsWhitespace(t[0])
    ensures LeadingWhitespace(w + t) == |w|
  {
    if w == [] {
      assert w + t == t;
    } else {
      assert (w + t)[1..] == w[1..] + t;
      assert AllWhitespace(w[1..]) by {
        forall i | 0 <= i < |w[1..]| ensures IsJsWhitespace(w[1..][i]) {
          assert w[1..][i] == w[i + 1];
        }
      }
      assert IsJsWhitespace((w + t)[0]);
      LeadingWhitespaceAfter(w[1..], t);
    }
  }

  /** One leading sign is read as such; the sign applies to the magnitude that follows. */
  lemma SignApplied(sign: string, u: string)
    requires sign == "" || sign == "+" || sign == "-"
    requires sign == "" && u != [] ==> u[0] != '+' && u[0] != '-'
    ensures ApplySign(sign + u) == Negate(sign == "-", Magnitude(u))
  {
    if sign == "" {
      assert sign + u == u;
    } else {
      assert (sign + u)[1..] == u;
    }
  }

  /** Leading whitespace and one sign are skipped; the sign applies to the magnitude. */
  lemma ParseSigned(w: string, sign: string, u: string)
    requires AllWhitespace(w)
    requires sign == "" || sign == "+" || sign == "-"
    requires sign == "" && u != [] ==> u[0] != '+' && u[0] != '-' && !IsJsWhitespace(u[0])
    ensures ParseInt(w + sign + u) == Negate(sign == "-", Magnitude(u))
  {
    var t := sign + u;
    assert w + sign + u == w + t;
    LeadingWhitespaceAfter(w, t);
    assert (w + t)[|w|..] == t;
    SignApplied(sign, u);
  }

  /** A decimal numeral followed by text that does not continue it has that numeral's value. */
  lemma DecimalMagnitude(n: nat, rest: string)
    requires rest == [] || !('0' <= rest[0] <= '9')
    requires n == 0 && rest != [] ==> rest[0] != 'x' && rest[0] != 'X'
    ensures Magnitude(Decimal(n) + rest) == Some(n)
    ensures '0' <= (Decimal(n) + rest)[0] <= '9'
  {
    var d := Decimal(n);
    var u := d + rest;
    if d[0] == '0' {
      assert n == 0 && d == "0";
      assert |u| >= 2 ==> u[1] == rest[0];
    }
    DigitRunOfDigits(d, rest);
    assert u[..|d|] == d;
    DecimalValue(n);
  }

  /**
   * Leading whitespace, an optional sign, a decimal numeral and then text
   * that does not continue the number: `parseInt` reads the numeral, negated
   * after a minus sign.  A lone `0` followed by `x` is excluded, as that is
   * the hexadecimal prefix.
   */
  lemma ParseNumeral(w: string, sign: string, n: nat, rest: string)
    requires AllWhitespace(w)
    requires sign == "" || sign == "+" || sign == "-"
    requires rest == [] || !('0' <= rest[0] <= '9')
    requires n == 0 && rest != [] ==> rest[0] != 'x' && rest[0] != 'X'
    ensures sign == "-" ==> ParseInt(w + sign + (Decimal(n) + rest)) == Some(-(n as int))
    ensures sign != "-" ==> ParseInt(w + sign + (Decimal(n) + rest)) == Some(n)
  {
    DecimalMagnitude(n, rest);
    ParseSigned(w, sign, Decimal(n) + rest);
  }

  /**
   * Leading whitespace and at most one sign, then anything but a digit:
   * `parseInt` gives NaN.
   */
  lemma ParseNotANumber(w: string, sign: string, rest: string)
    requires AllWhitespace(w)
    requires sign == "" || sign == "+" || sign == "-"
    requires rest == [] || !('0' <= rest[0] <= '9')
    requires sign == "" && rest != [] ==> rest[0] != '+' && rest[0] != '-' && !IsJsWhitespace(rest[0])
    ensures ParseInt(w + sign + rest) == None
  {
    ParseSigned(w, sign, rest);
  }

  /** A number typed in decimal is read back as itself. */
  lemma ParseDecimal(n: nat)
    ensures ParseInt(Decimal(n)) == Some(n)
  {
    ParseNumeral("", "", n, "");
    var s := "" + "" + (Decimal(n) + "");
    assert s == Decimal(n);
    assert ParseInt(s) == ParseInt(Decimal(n));
  }

  // ---------------------------------------------------------------------
  // The submit handler's check

  /** One form input: what `FormData.get` returns and the element's own value. */
  datatype FormField = FormField(fromForm: Option<string>, fromElement: string)

  datatype MovieForm = MovieForm(
    title: FormField,
    description: FormField,
    year: FormField,
    genre: FormField,
    duration: FormField,
    ageRating: FormField,
    poster: FormField)

  /** The object the submit handler builds; None in a number field is NaN. */
  datatype MovieData = MovieData(
    title: string,
    description: string,
    year: Option<int>,
    genre: string,
    duration: Option<int>,
    ageRating: string,
    poster: string)

  datatype SubmitOutcome = Warn(message: string) | Send(data: MovieData)

  const FillAllFields := "Por favor, preencha todos os campos"

  /** `formData.get(name) || element.value`. */
  function FieldText(f: FormField): string {
    if f.fromForm.Some? && f.fromForm.value != "" then f.fromForm.value else f.fromElement
  }

  function ReadForm(f: MovieForm): MovieData {
    MovieData(FieldText(f.title), FieldText(f.description), ParseInt(FieldText(f.year)),
              FieldText(f.genre), ParseInt(FieldText(f.duration)), FieldText(f.ageRating),
              FieldText(f.poster))
  }

  /** A number that is neither NaN nor zero. */
  predicate Truthy(n: Option<int>) {
    n.Some? && n.value != 0
  }

  /**
   * The submit handler: a warning, and no request, when any text field is
   * empty or either number reads as NaN or zero; otherwise the data is sent.
   */
  function Submit(f: MovieForm): (o: SubmitOutcome)
    ensures o.Send? <==>
      && FieldText(f.title) != "" && FieldText(f.description) != ""
      && Truthy(ParseInt(FieldText(f.year))) && FieldText(f.genre) != ""
      && Truthy(ParseInt(FieldText(f.duration))) && FieldText(f.ageRating) != ""
      && FieldText(f.poster) != ""
    ensures o.Send? ==> o.data == ReadForm(f)
    ensures o.Warn? ==> o.message == FillAllFields
  {
    var d := ReadForm(f);
    if d.title == "" || d.description == "" || !Truthy(d.year) || d.genre == ""
       || !Truthy(d.duration) || d.ageRating == "" || d.poster == ""
    then Warn(FillAllFields)
    else Send(d)
  }

  /** The request body `JSON.stringify` produces; NaN becomes `null`. */
  function RequestBody(d: MovieData): Movies.MoviePayload {
    Movies.MoviePayload(Some(d.title), Some(d.description), d.year, Some(d.genre),
                        d.duration, Some(d.ageRating), Some(d.poster))
  }

  /** Whatever the page sends passes the server's missing-field check. */
  lemma SentFormHasRequiredFields(f: MovieForm)
    ensures Submit(f).Send? ==> Movies.HasRequiredFields(RequestBody(Submit(f).data))
    ensures Submit(f).Send? ==> Movies.Validate(RequestBody(Submit(f).data)) != Some(Movies.MissingFieldsError)
  {
  }

  /** A form whose year field is left blank is never sent. */
  lemma BlankYearNotSent(f: MovieForm)
    requires AllWhitespace(FieldText(f.year))
    ensures Submit(f) == Warn(FillAllFields)
  {
  }

  // ---------------------------------------------------------------------
  // apiRequest

  datatype ApiResult<T> = Resolved(data: T) | Thrown(message: string)

  const RequestFailed := "Erro na requisição"

  /**
   * `apiRequest` once the body is parsed: the body on a 2xx status;
   * otherwise a thrown error whose message is the body's `error` field, or
   * a fixed text when that field is missing or empty.
   */
  function ApiRequest<T>(status: int, body: T, bodyError: Option<string>): (r: ApiResult<T>)
    ensures r.Resolved? <==> 200 <= status <= 299
    ensures r.Resolved? ==> r.data == body
    ensures r.Thrown? && bodyError.Some? && bodyError.value != "" ==> r.message == bodyError.value
    ensures r.Thrown? && (bodyError.None? || bodyError.value == "") ==> r.message == RequestFailed
  {
    if !IsOkStatus(status) then
      Thrown(if bodyError.Some? && bodyError.value != "" then bodyError.value else RequestFailed)
    else
      Resolved(body)
  }

  /** Every validation error the movie create handler answers reaches the page verbatim. */
  lemma StoreRejectionShown(p: Movies.MoviePayload)
    requires Movies.Validate(p).Some?
    ensures ApiRequest(400, (), Movies.Validate(p)) == Thrown(Movies.Validate(p).value)
  {
  }

  /** A 404 from the movie lookup reaches the page with the server's message. */
  lemma NotFoundShown(table: map<int, Movies.Movie>, id: int)
    requires id !in table
    ensures var r := Movies.Show(table, id);
      r.Error? && ApiRequest(r.status, (), Some(r.error)) == Thrown(Movies.NotFoundError)
  {
  }
}
