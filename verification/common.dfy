/** Failure-compatible wrappers shared by every service of the model. */
module Wrappers {

  /** A nullable reference: `None` stands for Java's `null`. */
  datatype Option<+T> = None | Some(value: T) {
    function GetOr(default: T): T {
      if Some? then value else default
    }
  }

  /** The exceptions the services throw, one constructor per distinct outcome. */
  datatype Error =
    | NotFound             // NotFoundException, answered with 404
    | DataConflict         // DataConflictException, answered with 409
    | ParameterNotValid    // ParameterNotValidException, answered with 400
    | ConstraintViolation  // ConstraintViolationException, answered with 409
    | BadRequest           // ResponseStatusException(BAD_REQUEST) thrown by the statistics server
    | InternalError        // an unchecked runtime exception no handler maps (null dereference,
                           // division by zero, an illegal page request): answered with 500

  /** The result of a service call: a value, or the exception that ended the call. */
  datatype Result<+T> = Ok(value: T) | Err(error: Error) {
    predicate IsFailure() {
      Err?
    }

    function PropagateFailure<U>(): Result<U>
      requires Err?
    {
      Err(error)
    }

    function Extract(): T
      requires Ok?
    {
      value
    }
  }

  /** A check that either passes or throws. */
  datatype Outcome = Pass | Fail(error: Error) {
    predicate IsFailure() {
      Fail?
    }

    function PropagateFailure<U>(): Result<U>
      requires Fail?
    {
      Err(error)
    }
  }

  function Need(condition: bool, error: Error): (r: Outcome)
    ensures r.Pass? <==> condition
    ensures r.Fail? ==> r.error == error
  {
    if condition then Pass else Fail(error)
  }
}

/** Java string predicates the services rely on. */
module Text {
  import opened Wrappers

  /** `Character.isWhitespace`: the ASCII controls it accepts and the Unicode
      space, line and paragraph separators other than the no-break spaces. */
  predicate IsWhitespace(c: char) {
    || c == ' ' || c == '\t' || c == '\n' || c == '\U{000B}' || c == '\U{000C}' || c == '\r'
    || ('\U{001C}' <= c <= '\U{001F}')
    || c == '\U{1680}'
    || ('\U{2000}' <= c <= '\U{2006}') || ('\U{2008}' <= c <= '\U{200A}')
    || c == '\U{2028}' || c == '\U{2029}' || c == '\U{205F}' || c == '\U{3000}'
  }

  /** `String.isBlank`: empty, or whitespace only. */
  predicate IsBlank(s: string) {
    forall i | 0 <= i < |s| :: IsWhitespace(s[i])
  }

  /** The `has*` idiom of the update requests: `!(s == null || s.isBlank())`. */
  function HasText(s: Option<string>): (b: bool)
    ensures b <==> s.Some? && exists i | 0 <= i < |s.value| :: !IsWhitespace(s.value[i])
  {
    !(s.None? || IsBlank(s.value))
  }

  /** Lower-casing of one character: the ASCII letters and the basic Cyrillic capitals
      (U+0400..U+042F, including Ё); every other character is kept. */
  function LowerChar(c: char): (l: char)
    ensures 'A' <= c <= 'Z' ==> l as int == c as int + 32
    ensures '\U{0410}' <= c <= '\U{042F}' ==> l as int == c as int + 32
    ensures c == 'Ё' ==> l == 'ё'
    ensures l != c <==> 'A' <= c <= 'Z' || '\U{0400}' <= c <= '\U{042F}'
    ensures !('A' <= l <= 'Z' || '\U{0400}' <= l <= '\U{042F}')
  {
    if 'A' <= c <= 'Z' then (c as int - 'A' as int + 'a' as int) as char
    else if '\U{0410}' <= c <= '\U{042F}' then (c as int + 0x20) as char
    else if '\U{0400}' <= c <= '\U{040F}' then (c as int + 0x50) as char
    else c
  }

  /** `String.toLowerCase` and SQL `lower`, character by character. */
  function Lower(s: string): (r: string)
    ensures |r| == |s|
    ensures forall i | 0 <= i < |s| :: r[i] == LowerChar(s[i])
  {
    if s == [] then [] else [LowerChar(s[0])] + Lower(s[1..])
  }

  /** `hay LIKE '%' + needle + '%'`: `needle` occurs in `hay` as a contiguous block. */
  predicate Contains(hay: string, needle: string) {
    exists i | 0 <= i <= |hay| :: needle <= hay[i..]
  }
}

/** Conversion of request parameters into Spring Data page requests. */
module Paging {
  import opened Wrappers

  /** Java's `/` on `int`, which truncates toward zero. */
  function JavaDiv(a: int, b: int): (q: int)
    requires b != 0
    ensures b > 0 && a >= 0 ==> q == a / b
    ensures b > 0 && a < 0 ==> q == -((-a) / b)
  {
    if (a >= 0) == (b > 0) then
      (if a >= 0 then a / b else (-a) / (-b))
    else
      (if a >= 0 then -(a / (-b)) else -((-a) / b))
  }

  /** `PageRequest.of(page, size)` applied to `rows`: the page-th block of `size` rows.
      A negative page or a size below one is an IllegalArgumentException. */
  function PageOf<T>(rows: seq<T>, page: int, size: int): (r: Result<seq<T>>)
    ensures r.Err? <==> page < 0 || size < 1
    ensures r.Err? ==> r.error == InternalError
    ensures r.Ok? ==> |r.value| <= size && |r.value| <= |rows|
    ensures r.Ok? ==> forall k | 0 <= k < |r.value| :: page * size + k < |rows| && r.value[k] == rows[page * size + k]
    ensures r.Ok? && page * size + size <= |rows| ==> |r.value| == size
    ensures r.Ok? && page * size >= |rows| ==> r.value == []
  {
    if page < 0 || size < 1 then Err(InternalError)
    else
      var lo := if page * size < |rows| then page * size else |rows|;
      var hi := if page * size + size < |rows| then page * size + size else |rows|;
      Ok(rows[lo..hi])
  }

  /** Page index and size built from an item offset as `PageRequest.of(from / size, size)`.
      A size of zero is an ArithmeticException. */
  function OffsetPage<T>(rows: seq<T>, from: int, size: int): (r: Result<seq<T>>)
    ensures size == 0 ==> r == Err(InternalError)
    ensures size != 0 ==> r == PageOf(rows, JavaDiv(from, size), size)
  {
    if size == 0 then Err(InternalError) else PageOf(rows, JavaDiv(from, size), size)
  }

  /** Every row of a page is a row of the input. */
  lemma OffsetPageSubset<T>(rows: seq<T>, from: int, size: int, x: T)
    requires OffsetPage(rows, from, size).Ok? && x in OffsetPage(rows, from, size).value
    ensures x in rows
  {
    var page := OffsetPage(rows, from, size).value;
    var k :| 0 <= k < |page| && page[k] == x;
  }

  /** The page starts at item `from` exactly when `from` is a multiple of `size`;
      otherwise it starts at the largest multiple of `size` below `from`. */
  lemma OffsetPageStart(from: int, size: int)
    requires from >= 0 && size >= 1
    ensures JavaDiv(from, size) * size == from - from % size
    ensures JavaDiv(from, size) * size == from <==> from % size == 0
  {
  }
}
