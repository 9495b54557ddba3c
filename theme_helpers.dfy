/**
 * The template helpers the résumé theme registers with Handlebars
 * (jsonresume-theme-turnipcaffeine/index.js): removeProtocol, concat,
 * ifEquals, orIfNull, yearsAgo, nYears, authorString, subset, and the text
 * assembly of the imagedata helper.
 */
module ThemeHelpers {
  import opened Results
  import opened Decimal
  import opened JsValues
  import Base64

  // ---------------------------------------------------------------------
  // removeProtocol: url.replace(/.*?:\/\//g, '')
  // ---------------------------------------------------------------------

  /** The characters a regular-expression `.` does not match. */
  predicate IsLineTerminator(c: char) {
    c == '\n' || c == '\r' || c == '\U{2028}' || c == '\U{2029}'
  }

  predicate SingleLine(s: string) {
    forall i :: 0 <= i < |s| ==> !IsLineTerminator(s[i])
  }

  /** "://" occurs in `s` at index `i`. */
  predicate SepAt(s: string, i: int) {
    0 <= i && i + 3 <= |s| && s[i] == ':' && s[i + 1] == '/' && s[i + 2] == '/'
  }

  ghost predicate HasSep(s: string) {
    exists i :: SepAt(s, i)
  }

  /**
   * The length of the match of the lazy pattern `.*?://` anchored at the
   * start of `s`: the shortest run of non-terminators followed by "://".
   */
  function LazyMatch(s: string): (m: Option<nat>)
    ensures m.Some? ==> 3 <= m.value <= |s| && SepAt(s, m.value - 3) && SingleLine(s[..m.value - 3])
    ensures m.Some? ==> forall j :: 0 <= j < m.value - 3 ==> !SepAt(s, j)
    ensures m.None? ==> forall j :: SepAt(s, j) ==> !SingleLine(s[..j])
  {
    if |s| < 3 then None
    else if SepAt(s, 0) then Some(3)
    else if IsLineTerminator(s[0]) then
      assert forall j :: SepAt(s, j) ==> !SingleLine(s[..j]) by {
        forall j | SepAt(s, j) ensures !SingleLine(s[..j]) { assert s[..j][0] == s[0]; }
      }
      None
    else
      match LazyMatch(s[1..])
      case None =>
        assert forall j :: SepAt(s, j) ==> !SingleLine(s[..j]) by {
          forall j | SepAt(s, j) ensures !SingleLine(s[..j]) {
            assert SepAt(s[1..], j - 1);
            var k :| 0 <= k < j - 1 && IsLineTerminator(s[1..][..j - 1][k]);
            assert s[..j][k + 1] == s[1..][..j - 1][k];
          }
        }
        None
      case Some(n) =>
        assert SepAt(s[1..], n - 3);
        assert forall j :: 0 <= j < n + 1 - 3 ==> !SepAt(s, j) by {
          forall j | 0 < j < n - 2 ensures !SepAt(s, j) { assert !SepAt(s[1..], j - 1); }
        }
        assert SingleLine(s[..n + 1 - 3]) by {
          forall i | 0 < i < n - 2 ensures !IsLineTerminator(s[i]) {
            assert s[i] == s[1..][..n - 3][i - 1];
          }
        }
        Some(n + 1)
  }

  /**
   * removeProtocol: every match of `.*?://`, searched left to right from
   * the end of the previous match, is deleted; the other characters stay.
   */
  function RemoveProtocol(url: string): (r: string)
    ensures |r| <= |url|
    decreases |url|
  {
    if url == [] then []
    else match LazyMatch(url)
      case Some(n) => RemoveProtocol(url[n..])
      case None => [url[0]] + RemoveProtocol(url[1..])
  }

  /** A URL without "://" comes back unchanged. */
  lemma {:induction false} RemoveProtocolWithoutSep(url: string)
    requires !HasSep(url)
    ensures RemoveProtocol(url) == url
    decreases |url|
  {
    if url != [] {
      assert LazyMatch(url).None?;
      assert !HasSep(url[1..]) by {
        forall j | SepAt(url[1..], j) ensures false { assert SepAt(url, j + 1); }
      }
      RemoveProtocolWithoutSep(url[1..]);
    }
  }

  lemma SingleLineSuffix(s: string, n: nat)
    requires SingleLine(s) && n <= |s|
    ensures SingleLine(s[n..])
  {
    forall i | 0 <= i < |s| - n ensures !IsLineTerminator(s[n..][i]) { assert s[n..][i] == s[n + i]; }
  }

  lemma SepInSuffix(s: string, n: nat, k: int)
    requires n <= |s| && SepAt(s[n..], k)
    ensures SepAt(s, n + k)
  {
    assert s[n..][k] == s[n + k] && s[n..][k + 1] == s[n + k + 1] && s[n..][k + 2] == s[n + k + 2];
  }

  /** On a single line a "://" is always within reach of the lazy match. */
  lemma SingleLineMatches(s: string)
    requires SingleLine(s) && HasSep(s)
    ensures LazyMatch(s).Some?
  {
    var j :| SepAt(s, j);
    assert SingleLine(s[..j]) by {
      forall i | 0 <= i < j ensures !IsLineTerminator(s[..j][i]) { assert s[..j][i] == s[i]; }
    }
  }

  /** After a match, removeProtocol goes on with the rest of the string. */
  lemma RemoveProtocolAfterMatch(s: string)
    requires LazyMatch(s).Some?
    ensures RemoveProtocol(s) == RemoveProtocol(s[LazyMatch(s).value..])
  {
  }

  /**
   * On a single line the result is a suffix of the URL, and when the URL
   * has a "://" the suffix starts right after one.
   */
  lemma {:induction false} RemoveProtocolSingleLine(url: string)
    requires SingleLine(url)
    ensures RemoveProtocol(url) == url[|url| - |RemoveProtocol(url)|..]
    ensures HasSep(url) ==> SepAt(url, |url| - |RemoveProtocol(url)| - 3)
    decreases |url|
  {
    if !HasSep(url) {
      RemoveProtocolWithoutSep(url);
    } else {
      SingleLineMatches(url);
      var n := LazyMatch(url).value;
      var rest := url[n..];
      SingleLineSuffix(url, n);
      RemoveProtocolSingleLine(rest);
      RemoveProtocolAfterMatch(url);
      var r := RemoveProtocol(rest);
      assert url[|url| - |r|..] == rest[|rest| - |r|..];
      if HasSep(rest) {
        SepInSuffix(url, n, |rest| - |r| - 3);
      } else {
        RemoveProtocolWithoutSep(rest);
      }
    }
  }

  /** A character that no match removes is never the ':' of a "://" left behind. */
  lemma KeptCharStartsNoSep(url: string)
    requires url != [] && LazyMatch(url).None?
    ensures !SepAt(RemoveProtocol(url), 0)
  {
    var r := RemoveProtocol(url);
    assert r == [url[0]] + RemoveProtocol(url[1..]);
    if |r| >= 3 && url[0] == ':' {
      var t := url[1..];
      assert !SepAt(url, 0);
      assert LazyMatch(t).None?;
      assert RemoveProtocol(t) == [t[0]] + RemoveProtocol(t[1..]);
      assert r[1] == url[1];
      if url[1] == '/' {
        assert !SepAt(t, 0);
        assert LazyMatch(t[1..]).None?;
        assert RemoveProtocol(t[1..]) == [t[1]] + RemoveProtocol(t[2..]);
        assert r[2] == url[2];
      }
    }
  }

  /** On any input, multi-line included, the result contains no "://". */
  lemma {:induction false} RemoveProtocolLeavesNoSep(url: string)
    ensures !HasSep(RemoveProtocol(url))
    decreases |url|
  {
    if url != [] {
      match LazyMatch(url)
      case Some(n) =>
        RemoveProtocolLeavesNoSep(url[n..]);
      case None =>
        var rest := RemoveProtocol(url[1..]);
        var r := RemoveProtocol(url);
        RemoveProtocolLeavesNoSep(url[1..]);
        KeptCharStartsNoSep(url);
        forall i | SepAt(r, i) ensures false {
          assert SepAt(rest, i - 1);
        }
    }
  }

  /** On a single line with a "://", the result is exactly what follows the last "://". */
  lemma RemoveProtocolAfterLastSep(url: string)
    requires SingleLine(url) && HasSep(url)
    ensures var p := |url| - |RemoveProtocol(url)| - 3;
      && SepAt(url, p)
      && RemoveProtocol(url) == url[p + 3..]
      && forall q :: p < q ==> !SepAt(url, q)
  {
    RemoveProtocolSingleLine(url);
    RemoveProtocolLeavesNoSep(url);
    var r := RemoveProtocol(url);
    var p := |url| - |r| - 3;
    forall q | p < q && SepAt(url, q) ensures false {
      if q >= p + 3 {
        assert SepAt(r, q - p - 3);
      }
    }
  }

  // ---------------------------------------------------------------------
  // concat: the string forms of the arguments whose typeof is not 'object'
  // ---------------------------------------------------------------------

  /** What one argument adds to concat's result. */
  function Piece(arg: JsValue): string {
    if TypeOf(arg) == "object" then "" else ToString(arg)
  }

  /** concat's result for a list of arguments, first argument first. */
  function Concatenation(args: seq<JsValue>): string {
    if args == [] then "" else Piece(args[0]) + Concatenation(args[1..])
  }

  /** The arguments whose typeof is not 'object', in order. */
  function NonObjects(args: seq<JsValue>): (kept: seq<JsValue>)
    ensures forall v :: v in kept ==> v in args && TypeOf(v) != "object"
  {
    if args == [] then []
    else if TypeOf(args[0]) == "object" then NonObjects(args[1..])
    else [args[0]] + NonObjects(args[1..])
  }

  lemma {:induction false} ConcatenationAppend(args: seq<JsValue>, arg: JsValue)
    ensures Concatenation(args + [arg]) == Concatenation(args) + Piece(arg)
    decreases |args|
  {
    if args != [] {
      assert (args + [arg])[1..] == args[1..] + [arg];
      ConcatenationAppend(args[1..], arg);
    }
  }

  /** concat is exactly the string forms of its non-object arguments, in order. */
  lemma {:induction false} ConcatenationOfNonObjects(args: seq<JsValue>)
    ensures Concatenation(args) == Join(Texts(NonObjects(args)), "")
    decreases |args|
  {
    if args != [] {
      ConcatenationOfNonObjects(args[1..]);
      var rest := NonObjects(args[1..]);
      if TypeOf(args[0]) != "object" {
        var ts := Texts([args[0]] + rest);
        assert ts[0] == ToString(args[0]);
        assert ts[1..] == Texts(rest);
      }
    }
  }

  /** The trailing options hash, an object, adds nothing; nor does null or an array. */
  lemma ConcatenationIgnoresObjects(args: seq<JsValue>, arg: JsValue)
    requires arg.Null? || IsObject(arg)
    ensures Concatenation(args + [arg]) == Concatenation(args)
  {
    ConcatenationAppend(args, arg);
  }

  lemma PrefixStep<T>(s: seq<T>, i: nat)
    requires i < |s|
    ensures s[..i + 1] == s[..i] + [s[i]]
  {
  }

  /** concat: a loop over `arguments` that appends each non-object argument's string form. */
  method Concat(args: seq<JsValue>) returns (res: string)
    ensures res == Concatenation(args)
  {
    res := "";
    var i := 0;
    while i < |args|
      invariant 0 <= i <= |args|
      invariant res == Concatenation(args[..i])
    {
      var arg := args[i];
      ConcatenationAppend(args[..i], arg);
      PrefixStep(args, i);
      if TypeOf(arg) != "object" {
        assert Piece(arg) == ToString(arg);
        res := res + ToString(arg);
      } else {
        assert Piece(arg) == "";
      }
      i := i + 1;
    }
    assert args[..i] == args;
  }

  // ---------------------------------------------------------------------
  // ifEquals and orIfNull
  // ---------------------------------------------------------------------

  /** The two blocks a Handlebars block helper can render. */
  datatype Block = MainBlock | InverseBlock

  /** ifEquals: options.fn when arg1 == arg2 (loose equality), else options.inverse. */
  function IfEquals(arg1: JsValue, arg2: JsValue): (b: Block)
    ensures b == MainBlock <==> LooselyEqual(arg1, arg2)
  {
    if LooselyEqual(arg1, arg2) then MainBlock else InverseBlock
  }

  /** The block chosen does not depend on the order of the two arguments. */
  lemma IfEqualsSymmetric(arg1: JsValue, arg2: JsValue)
    ensures IfEquals(arg1, arg2) == IfEquals(arg2, arg1)
  {
    LooselyEqualSymmetric(arg1, arg2);
  }

  /** A number and its decimal text select the main block: 2020 and "2020". */
  lemma IfEqualsNumberAndItsText(n: int)
    ensures IfEquals(Int(n), Str(IntToDecimal(n))) == MainBlock
    ensures IfEquals(Str(IntToDecimal(n)), Int(n)) == MainBlock
  {
    IntLooselyEqualsItsDecimal(n);
  }

  /** A number and the decimal text of a number select the main block exactly when the two numbers are equal. */
  lemma IfEqualsNumberAndText(m: int, n: int)
    ensures IfEquals(Int(m), Str(IntToDecimal(n))) == MainBlock <==> m == n
  {
    IntStringLooselyEqual(m, IntToDecimal(n));
    assert StringToNumber(IntToDecimal(n)) == Number(n) by {
      TrimOfDecimal(n);
      ParseIntOfDecimal(n);
    }
  }

  /** orIfNull: the first argument when it is truthy, else the second. */
  function OrIfNull(arg1: JsValue, arg2: JsValue): (r: JsValue)
    ensures Truthy(arg1) ==> r == arg1
    ensures !Truthy(arg1) ==> r == arg2
    ensures Truthy(r) <==> Truthy(arg1) || Truthy(arg2)
  {
    if Truthy(arg1) then arg1 else arg2
  }

  // ---------------------------------------------------------------------
  // nYears and yearsAgo
  // ---------------------------------------------------------------------

  /** nYears: "1 year" when years == 1 (loose equality), else years + " years". */
  function NYears(years: JsValue): (text: string)
    ensures text == "1 year" <==> LooselyEqual(years, Int(1))
  {
    if LooselyEqual(years, Int(1)) then "1 year"
    else
      var t := ToString(years) + " years";
      assert t[|t| - 6..] == " years";
      t
  }

  /** On a number: "1 year" for exactly 1, otherwise its decimal text and " years". */
  lemma NYearsOfInt(n: int)
    ensures NYears(Int(n)) == if n == 1 then "1 year" else IntToDecimal(n) + " years"
  {
    LooselyEqualInts(n, 1);
  }

  /** The text of a subtraction's result: the digits, or "NaN". */
  function NumberText(n: Num): string {
    match n
    case Number(i) => IntToDecimal(i)
    case NaN => "NaN"
  }

  /** Number subtraction on the modelled numbers: NaN absorbs. */
  function Subtract(a: Num, b: Num): Num {
    if a.Number? && b.Number? then Number(a.n - b.n) else NaN
  }

  /**
   * yearsAgo, with the current year that `new Date().getFullYear()` reads
   * from the clock given as a parameter.
   */
  function YearsAgo(year: JsValue, currentYear: int): (text: string)
    ensures text == "1 year" <==> ToNumber(year) == Number(currentYear - 1)
  {
    YearsText(Subtract(Number(currentYear), ToNumber(year)))
  }

  /** The text yearsAgo builds from the difference it computed: "1 year" only for exactly 1. */
  function YearsText(years: Num): (text: string)
    ensures text == "1 year" <==> years == Number(1)
  {
    if NumberEquals(years, Number(1)) then "1 year"
    else
      var t := NumberText(years) + " years";
      assert |NumberText(years)| > 0 by {
        if years.Number? && years.n < 0 { assert |IntToDecimal(years.n)| > 1; }
      }
      assert |t| > 6;
      t
  }

  /** For a year that converts to the number y, yearsAgo(year) is nYears(currentYear - y). */
  lemma YearsAgoOfNumber(year: JsValue, currentYear: int, y: int)
    requires ToNumber(year) == Number(y)
    ensures YearsAgo(year, currentYear) == NYears(Int(currentYear - y))
  {
    assert Subtract(Number(currentYear), Number(y)) == Number(currentYear - y);
    NYearsOfInt(currentYear - y);
  }

  /** A year that does not convert to a number gives "NaN years". */
  lemma YearsAgoOfNaN(year: JsValue, currentYear: int)
    requires ToNumber(year) == NaN
    ensures YearsAgo(year, currentYear) == "NaN years"
  {
    assert YearsAgo(year, currentYear) == YearsText(NaN);
    assert YearsText(NaN) == "NaN years";
  }

  // ---------------------------------------------------------------------
  // authorString
  // ---------------------------------------------------------------------

  /** The string forms of a list of values. */
  function Texts(vs: seq<JsValue>): seq<string> {
    seq(|vs|, i requires 0 <= i < |vs| => ToString(vs[i]))
  }

  /**
   * What authorString returns. A falsy argument gives "". An array gives
   * "First author: " and its first element (undefined when it is empty),
   * then, when there are other authors, "; Co-authors: " and their list
   * joined by ", ". A string of one character is read as a one-author
   * list; a longer string has no forEach, and other values have no slice,
   * so both raise a TypeError.
   */
  function AuthorStringOf(authors: JsValue): Result<string, JsError> {
    if !Truthy(authors) then Ok("")
    else match authors
      case Arr(_, es) =>
        var head := "First author: " + ToString(if |es| > 0 then es[0] else Undefined);
        Ok(if |es| > 1 then head + "; Co-authors: " + Join(Texts(es[1..]), ", ") else head)
      case Str(s) => if |s| > 1 then Err(TypeError) else Ok("First author: " + s)
      case _ => Err(TypeError)
  }

  /**
   * authorString on anything but an array: "" when falsy; a one-character
   * string s is its own one-element slice and gives "First author: " + s;
   * any other truthy value lacks `slice` or `forEach` and raises TypeError.
   */
  lemma AuthorStringOfNonArray(authors: JsValue)
    requires !authors.Arr?
    ensures !Truthy(authors) ==> AuthorStringOf(authors) == Ok("")
    ensures authors.Str? && |authors.s| == 1 ==> AuthorStringOf(authors) == Ok("First author: " + authors.s)
    ensures Truthy(authors) && !(authors.Str? && |authors.s| == 1) ==> AuthorStringOf(authors) == Err(TypeError)
  {
  }

  lemma {:induction false} JoinAppend(parts: seq<string>, part: string, sep: string)
    requires parts != []
    ensures Join(parts + [part], sep) == Join(parts, sep) + sep + part
    decreases |parts|
  {
    if |parts| > 1 {
      assert (parts + [part])[1..] == parts[1..] + [part];
      JoinAppend(parts[1..], part, sep);
    }
  }

  /** authorString([]) is "First author: undefined": an empty array is truthy. */
  lemma AuthorStringOfEmptyArray(ref: nat)
    ensures AuthorStringOf(Arr(ref, [])) == Ok("First author: undefined")
  {
    assert "First author: " + "undefined" == "First author: undefined";
  }

  /** "; Co-authors: " follows the first author exactly when there are at least two. */
  lemma AuthorStringOfArray(ref: nat, es: seq<JsValue>)
    requires |es| > 0
    ensures var head := "First author: " + ToString(es[0]);
      && AuthorStringOf(Arr(ref, es)).Ok?
      && |AuthorStringOf(Arr(ref, es)).value| >= |head|
      && AuthorStringOf(Arr(ref, es)).value[..|head|] == head
      && (|es| == 1 <==> AuthorStringOf(Arr(ref, es)).value == head)
      && (|es| > 1 ==> AuthorStringOf(Arr(ref, es)).value[|head|..]
                       == "; Co-authors: " + Join(Texts(es[1..]), ", "))
  {
    var head := "First author: " + ToString(es[0]);
    if |es| > 1 {
      var r := AuthorStringOf(Arr(ref, es)).value;
      assert r == head + ("; Co-authors: " + Join(Texts(es[1..]), ", "));
      assert |r| > |head|;
    }
  }

  lemma TextsOfPrefix(vs: seq<JsValue>, i: nat)
    requires i < |vs|
    ensures Texts(vs[..i + 1]) == Texts(vs[..i]) + [ToString(vs[i])]
  {
  }

  /** The forEach of authorString: ", " before every author but the first. */
  method AppendCoAuthors(text: string, others: seq<JsValue>) returns (res: string)
    ensures res == text + Join(Texts(others), ", ")
  {
    res := text;
    var first := true;
    var i := 0;
    while i < |others|
      invariant 0 <= i <= |others|
      invariant first <==> i == 0
      invariant res == text + Join(Texts(others[..i]), ", ")
    {
      if !first {
        res := res + ", ";
      }
      res := res + ToString(others[i]);
      first := false;
      TextsOfPrefix(others, i);
      if i > 0 {
        JoinAppend(Texts(others[..i]), ToString(others[i]), ", ");
      }
      i := i + 1;
    }
    assert others[..i] == others;
  }

  /**
   * authorString: the first author, then a forEach over the other authors
   * that writes ", " before every author but the first.
   */
  method AuthorString(authors: JsValue) returns (r: Result<string, JsError>)
    ensures r == AuthorStringOf(authors)
  {
    if !Truthy(authors) {
      return Ok("");
    }
    match authors
    case Arr(_, es) =>
      var authorStr := "First author: " + ToString(if |es| > 0 then es[0] else Undefined);
      var otherAuthors := if |es| > 0 then es[1..] else [];
      if |otherAuthors| > 0 {
        authorStr := AppendCoAuthors(authorStr + "; Co-authors: ", otherAuthors);
      }
      return Ok(authorStr);
    case Str(s) =>
      if |s| > 1 {
        return Err(TypeError);
      }
      return Ok("First author: " + s);
    case _ =>
      return Err(TypeError);
  }

  // ---------------------------------------------------------------------
  // subset: array.slice(start) / array.slice(start, end)
  // ---------------------------------------------------------------------

  /** A relative slice index: negative counts back from the end; clamped to [0, len]. */
  function SliceIndex(relative: int, len: nat): nat {
    if relative < 0 then (if len + relative > 0 then len + relative else 0)
    else if relative < len then relative else len
  }

  /** Array.prototype.slice (and String.prototype.slice) on already-converted indices. */
  function Slice<T>(s: seq<T>, start: int, stop: int): (r: seq<T>)
    ensures |r| <= |s|
  {
    var k := SliceIndex(start, |s|);
    var f := SliceIndex(stop, |s|);
    if k < f then s[k..f] else []
  }

  /** The end index slice uses: the length when the argument is undefined. */
  function EndIndex(stop: JsValue, len: nat): int {
    if stop.Undefined? then len else ToIntegerOrInfinity(ToNumber(stop))
  }

  /**
   * v.slice(start, end): a new array (whose reference the engine picks,
   * given here as `newRef`) or a new string; other values have no slice.
   */
  function SliceOf(v: JsValue, start: JsValue, stop: JsValue, newRef: nat): (r: Result<JsValue, JsError>)
    requires v.Arr? ==> newRef != v.ref
    ensures r.Ok? <==> v.Arr? || v.Str?
    ensures r.Ok? && v.Arr? ==> r.value.Arr? && r.value.ref != v.ref && |r.value.elems| <= |v.elems|
    ensures r.Ok? && v.Str? ==> r.value.Str? && |r.value.s| <= |v.s|
  {
    match v
    case Arr(_, es) =>
      Ok(Arr(newRef, Slice(es, ToIntegerOrInfinity(ToNumber(start)), EndIndex(stop, |es|))))
    case Str(s) =>
      Ok(Str(Slice(s, ToIntegerOrInfinity(ToNumber(start)), EndIndex(stop, |s|))))
    case _ => Err(TypeError)
  }

  /**
   * subset: the array itself without a start, a slice to the end without an
   * end. With a start it raises TypeError exactly when the argument has no
   * slice, and an array argument gives a new array.
   */
  function Subset(arr: JsValue, start: JsValue, stop: JsValue, newRef: nat): (r: Result<JsValue, JsError>)
    requires arr.Arr? ==> newRef != arr.ref
    ensures IsNullish(start) ==> r == Ok(arr)
    ensures !IsNullish(start) ==> (r.Ok? <==> arr.Arr? || arr.Str?)
    ensures !IsNullish(start) && r.Ok? && arr.Arr? ==> r.value.Arr? && r.value.ref != arr.ref
  {
    LooselyEqualsNull(start);
    if LooselyEqual(start, Null) then Ok(arr)
    else if LooselyEqual(stop, Null) then SliceOf(arr, start, Undefined, newRef)
    else SliceOf(arr, start, stop, newRef)
  }

  /** With start null or undefined, subset returns its argument itself. */
  lemma SubsetWithoutStart(arr: JsValue, start: JsValue, stop: JsValue, newRef: nat)
    requires arr.Arr? ==> newRef != arr.ref
    requires IsNullish(start)
    ensures Subset(arr, start, stop, newRef) == Ok(arr)
  {
    LooselyEqualsNull(start);
  }

  /** With a start and no end, subset slices from start to the end. */
  lemma SubsetWithoutEnd(ref: nat, es: seq<JsValue>, start: int, stop: JsValue, newRef: nat)
    requires newRef != ref && IsNullish(stop)
    ensures Subset(Arr(ref, es), Int(start), stop, newRef) == Ok(Arr(newRef, Slice(es, start, |es|)))
  {
    LooselyEqualsNull(Int(start));
    LooselyEqualsNull(stop);
  }

  /** With both bounds, subset is slice(start, end). */
  lemma SubsetWithBounds(ref: nat, es: seq<JsValue>, start: int, stop: int, newRef: nat)
    requires newRef != ref
    ensures Subset(Arr(ref, es), Int(start), Int(stop), newRef) == Ok(Arr(newRef, Slice(es, start, stop)))
  {
    LooselyEqualsNull(Int(start));
    LooselyEqualsNull(Int(stop));
  }

  /** slice(0) and slice(0, length) are the whole sequence. */
  lemma SliceWhole<T>(s: seq<T>)
    ensures Slice(s, 0, |s|) == s
  {
  }

  /** slice(-n) keeps the last n elements. */
  lemma SliceLast<T>(s: seq<T>, n: nat)
    requires 0 < n <= |s|
    ensures Slice(s, -(n as int), |s|) == s[|s| - n..]
  {
  }

  /** A slice is the contiguous run of the sequence that starts at the normalised start index. */
  lemma SliceIsContiguous<T>(s: seq<T>, start: int, stop: int)
    ensures var k := SliceIndex(start, |s|);
      k + |Slice(s, start, stop)| <= |s| && Slice(s, start, stop) == s[k..k + |Slice(s, start, stop)|]
  {
  }

  /** Adjacent slices put together are the slice over their union. */
  lemma SliceAdjacent<T>(s: seq<T>, a: int, b: int, c: int)
    requires SliceIndex(a, |s|) <= SliceIndex(b, |s|) <= SliceIndex(c, |s|)
    ensures Slice(s, a, b) + Slice(s, b, c) == Slice(s, a, c)
  {
    var i, j, k := SliceIndex(a, |s|), SliceIndex(b, |s|), SliceIndex(c, |s|);
    assert Slice(s, a, b) == s[i..j];
    assert Slice(s, b, c) == s[j..k];
    assert Slice(s, a, c) == s[i..k];
    assert s[i..j] + s[j..k] == s[i..k];
  }

  // ---------------------------------------------------------------------
  // imagedata: "data:image/" + arg.split(".")[1] + ";base64," + base64
  // ---------------------------------------------------------------------

  /** String.prototype.split with a one-character separator. */
  function Split(s: string, sep: char): (fields: seq<string>)
    ensures |fields| >= 1
    ensures forall i :: 0 <= i < |fields| ==> sep !in fields[i]
  {
    if s == [] then [""]
    else
      var rest := Split(s[1..], sep);
      if s[0] == sep then [""] + rest
      else [[s[0]] + rest[0]] + rest[1..]
  }

  /** Splitting loses nothing: joining the fields gives the string back. */
  lemma {:induction false} JoinSplit(s: string, sep: char)
    ensures Join(Split(s, sep), [sep]) == s
    decreases |s|
  {
    if s != [] {
      var rest := Split(s[1..], sep);
      JoinSplit(s[1..], sep);
      if s[0] != sep {
        var fields := Split(s, sep);
        assert fields[1..] == rest[1..];
        if |rest| > 1 {
          assert Join(rest, [sep]) == rest[0] + [sep] + Join(rest[1..], [sep]);
        }
      }
    }
  }

  /**
   * The image type the helper writes: the second "."-separated field of
   * the file name, or "undefined" (the text of a missing field) when the
   * name has no ".".
   */
  function ImageType(filename: string): (t: string)
    ensures '.' !in t
  {
    var fields := Split(filename, '.');
    if |fields| > 1 then fields[1] else "undefined"
  }

  lemma {:induction false} SplitWithoutSep(s: string, sep: char)
    requires sep !in s
    ensures Split(s, sep) == [s]
    decreases |s|
  {
    if s != [] {
      SplitWithoutSep(s[1..], sep);
      assert [s[0]] + s[1..] == s;
    }
  }

  lemma {:induction false} SplitAfterField(field: string, sep: char, rest: string)
    requires sep !in field
    ensures Split(field + [sep] + rest, sep) == [field] + Split(rest, sep)
    decreases |field|
  {
    var s := field + [sep] + rest;
    if field == [] {
      assert s[1..] == rest;
    } else {
      assert s[1..] == field[1..] + [sep] + rest;
      SplitAfterField(field[1..], sep, rest);
      assert s[0] == field[0] != sep;
      assert [field[0]] + field[1..] == field;
    }
  }

  /** A name without "." gives "undefined". */
  lemma ImageTypeWithoutDot(filename: string)
    requires '.' !in filename
    ensures ImageType(filename) == "undefined"
  {
    SplitWithoutSep(filename, '.');
  }

  /** The type is the field after the first ".", up to the next "." if any: "a.b.png" gives "b". */
  lemma ImageTypeIsSecondField(base: string, ext: string, rest: string)
    requires '.' !in base && '.' !in ext
    requires rest == [] || rest[0] == '.'
    ensures ImageType(base + "." + ext + rest) == ext
  {
    SplitAfterField(base, '.', ext + rest);
    assert base + "." + ext + rest == base + ['.'] + (ext + rest);
    if rest == [] {
      SplitWithoutSep(ext, '.');
      assert ext + rest == ext;
    } else {
      SplitAfterField(ext, '.', rest[1..]);
      assert ext + rest == ext + ['.'] + rest[1..];
    }
  }

  /** The data URI imagedata returns, given the bytes of the image file. */
  function DataUri(filename: string, image: seq<Base64.Byte>): string {
    "data:image/" + ImageType(filename) + ";base64," + Base64.Encode(image)
  }

  /**
   * The data URI is its header followed by a payload of 4 * ceil(n / 3)
   * characters that decodes back to exactly the image bytes.
   */
  lemma DataUriPayload(filename: string, image: seq<Base64.Byte>)
    ensures var header := "data:image/" + ImageType(filename) + ";base64,";
      var uri := DataUri(filename, image);
      && |uri| == |header| + 4 * ((|image| + 2) / 3)
      && uri[..|header|] == header
      && Base64.Decode(uri[|header|..]) == Some(image)
  {
    var header := "data:image/" + ImageType(filename) + ";base64,";
    var uri := DataUri(filename, image);
    assert uri == header + Base64.Encode(image);
    assert uri[|header|..] == Base64.Encode(image);
    Base64.DecodeEncode(image);
  }
}
