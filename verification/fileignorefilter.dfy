/**
 * The ignore file: gitignore patterns deciding which files take part in a
 * sync, plus one directive, a comment line "# @neowrangler supporter",
 * that also excludes every file a free account could not hold.
 *
 * The gitignore pattern language itself belongs to an outside parser; it
 * is a parameter here (`compile`), given the whole file text and answering
 * for a website path whether the patterns accept it.
 */
module FileIgnoreFilter {
  import opened Results
  import opened WebPath
  import opened Filesystem

  /** What follows the '#' and the blanks on a directive line. */
  const Directive: string := "@neowrangler supporter"

  /** JavaScript's `\s` class. */
  predicate IsJsWhitespace(c: char) {
    c == ' ' || c == '\t' || c == '\n' || c == '\U{b}' || c == '\U{c}' || c == '\r'
    || c == '\U{a0}' || c == '\U{1680}' || ('\U{2000}' <= c <= '\U{200a}')
    || c == '\U{2028}' || c == '\U{2029}' || c == '\U{202f}' || c == '\U{205f}'
    || c == '\U{3000}' || c == '\U{feff}'
  }

  /** The characters after which `^` matches in multiline mode. */
  predicate IsLineTerminator(c: char) {
    c == '\n' || c == '\r' || c == '\U{2028}' || c == '\U{2029}'
  }

  /** What `(?:(?!\n)\s)` matches: whitespace other than a line feed. */
  predicate IsBlank(c: char) {
    IsJsWhitespace(c) && c != '\n'
  }

  /** `^` matches at `i`. */
  predicate LineStart(s: string, i: int) {
    i == 0 || (0 < i <= |s| && IsLineTerminator(s[i - 1]))
  }

  /** Every character of `s[a..b]` is blank. */
  predicate Blanks(s: string, a: int, b: int)
    requires 0 <= a <= b <= |s|
  {
    forall m :: a <= m < b ==> IsBlank(s[m])
  }

  /**
   * The directive pattern matches starting at `i` (the line-start anchor
   * aside): a '#', any blanks, then the directive text.
   */
  ghost predicate MatchesAt(s: string, i: int) {
    0 <= i < |s| && s[i] == '#' &&
    exists j :: i < j <= |s| && Blanks(s, i + 1, j) && StartsWith(s[j..], Directive)
  }

  /** The first index at or after `k` holding a non-blank character (or the end). */
  function SkipBlanks(s: string, k: nat): (r: nat)
    requires k <= |s|
    ensures k <= r <= |s| && Blanks(s, k, r)
    ensures r == |s| || !IsBlank(s[r])
    decreases |s| - k
  {
    if k < |s| && IsBlank(s[k]) then SkipBlanks(s, k + 1) else k
  }

  /** The greedy blank run leaves no choice: the directive can only begin where the blanks end. */
  lemma MatchesAtFirstNonBlank(s: string, i: int)
    requires 0 <= i < |s|
    ensures MatchesAt(s, i) <==> s[i] == '#' && StartsWith(s[SkipBlanks(s, i + 1)..], Directive)
  {
    var r := SkipBlanks(s, i + 1);
    if MatchesAt(s, i) {
      var j :| i < j <= |s| && Blanks(s, i + 1, j) && StartsWith(s[j..], Directive);
      assert s[j..][0] == '@';
      assert !IsBlank(s[j]);
      assert r == j;
    }
  }

  /** The directive line occurs at or after index `i`. */
  function DirectiveFrom(s: string, i: nat): (r: bool)
    requires i <= |s|
    ensures r <==> exists k :: i <= k < |s| && LineStart(s, k) && MatchesAt(s, k)
    decreases |s| - i
  {
    if i == |s| then false
    else
      MatchesAtFirstNonBlank(s, i);
      var here := LineStart(s, i) && s[i] == '#' && StartsWith(s[SkipBlanks(s, i + 1)..], Directive);
      here || DirectiveFrom(s, i + 1)
  }

  /**
   * `/^\#(?:(?!\n)\s)*@neowrangler supporter/gm.test(input)`: some line
   * starts with '#', blanks and the directive text.
   */
  function HasSupporterDirective(input: string): (r: bool)
    ensures r <==> exists k :: 0 <= k < |input| && LineStart(input, k) && MatchesAt(input, k)
  {
    DirectiveFrom(input, 0)
  }

  /** The filter: the compiled patterns and the supporter flag. */
  datatype IgnoreFilter = IgnoreFilter(accepts: string -> bool, ignoreSupporterFiles: bool)

  /** The constructor: compile the patterns and look for the directive. */
  function NewFilter(input: string, compile: string -> (string -> bool)): (r: IgnoreFilter)
    ensures r.accepts == compile(input)
    ensures r.ignoreSupporterFiles <==> exists k :: 0 <= k < |input| && LineStart(input, k) && MatchesAt(input, k)
  {
    IgnoreFilter(compile(input), HasSupporterDirective(input))
  }

  /**
   * `getIfAcceptsFile`: with the directive, a file a free account could
   * not hold is refused outright; otherwise the patterns decide on the
   * website path.
   */
  function Accepts(filter: IgnoreFilter, f: File): (r: bool)
    ensures r ==> filter.accepts(WebsitePath(f))
    ensures r ==> !filter.ignoreSupporterFiles || IsSupportedOnFree(f)
    ensures filter.accepts(WebsitePath(f)) && (!filter.ignoreSupporterFiles || IsSupportedOnFree(f)) ==> r
  {
    if filter.ignoreSupporterFiles && !IsSupportedOnFree(f) then false
    else filter.accepts(WebsitePath(f))
  }

  /**
   * `readFromPossiblePath`: no path (or an empty one) gives the filter of
   * the empty text; otherwise the file is read, a failed read fails, and
   * the filter holds the file's patterns and its supporter directive.
   */
  function ReadFromPossiblePath(path: Option<string>, readFile: string -> Answer<string>,
                                compile: string -> (string -> bool)): (r: Answer<IgnoreFilter>)
    ensures (path.None? || path.value == "") ==> r.Ok? && !r.value.ignoreSupporterFiles && r.value.accepts == compile("")
    ensures path.Some? && path.value != "" && readFile(path.value).Err? ==> r == Err(readFile(path.value).error)
    ensures path.Some? && path.value != "" && readFile(path.value).Ok? ==>
      r.Ok? && r.value.accepts == compile(readFile(path.value).value) &&
      (r.value.ignoreSupporterFiles <==> HasSupporterDirective(readFile(path.value).value))
  {
    if path.None? || path.value == "" then Ok(NewFilter("", compile))
    else
      match readFile(path.value)
      case Err(e) => Err(e)
      case Ok(text) => Ok(NewFilter(text, compile))
  }

  /** What the filter makes of a collection (the collection's `filter`). */
  function FilterCollection(c: Collection, filter: IgnoreFilter): (r: Collection)
    ensures r.id == c.id && r.kind == c.kind
    ensures forall g :: g in r.files <==> g in c.files && Accepts(filter, g)
  {
    FilterFiles(c, g => Accepts(filter, g))
  }

  // ------------------------------------------------------------------ lemmas

  /** A directive line anywhere in the ignore file keeps every paid-only file out of the sync. */
  lemma DirectiveExcludesPaidFiles(input: string, compile: string -> (string -> bool), c: Collection, k: nat)
    requires k < |input| && LineStart(input, k) && MatchesAt(input, k)
    ensures forall g :: g in FilterCollection(c, NewFilter(input, compile)).files ==> IsSupportedOnFree(g)
  {
  }

  /** An ignore file read from disk whose text holds a directive line refuses every paid-only file. */
  lemma ReadDirectiveRefusesPaidFiles(path: string, readFile: string -> Answer<string>,
                                      compile: string -> (string -> bool), f: File, k: nat)
    requires path != "" && readFile(path).Ok?
    requires k < |readFile(path).value| && LineStart(readFile(path).value, k) && MatchesAt(readFile(path).value, k)
    requires !IsSupportedOnFree(f)
    ensures var r := ReadFromPossiblePath(Some(path), readFile, compile); r.Ok? && !Accepts(r.value, f)
  {
  }

  /** Without the directive, the patterns alone decide. */
  lemma NoDirectivePatternsDecide(input: string, compile: string -> (string -> bool), f: File)
    requires forall k :: 0 <= k < |input| && LineStart(input, k) ==> !MatchesAt(input, k)
    ensures Accepts(NewFilter(input, compile), f) == compile(input)(WebsitePath(f))
  {
  }

  /** A directive on its own first line, with a space after the '#'. */
  lemma DirectiveOnFirstLine()
    ensures HasSupporterDirective("# @neowrangler supporter")
  {
    var s := "# @neowrangler supporter";
    assert s[2..] == Directive;
    assert Blanks(s, 1, 2);
    assert MatchesAt(s, 0);
  }

  /** A directive on a later line, with a tab after the '#'. */
  lemma DirectiveOnLaterLine()
    ensures HasSupporterDirective("*.mp3\n#\t@neowrangler supporter")
  {
    var s := "*.mp3\n#\t@neowrangler supporter";
    assert s[8..] == Directive;
    assert Blanks(s, 7, 8);
    assert LineStart(s, 6);
    assert MatchesAt(s, 6);
  }

  /** Text with no '#' at all never carries the directive. */
  lemma NoHashNoDirective(input: string)
    requires '#' !in input
    ensures !HasSupporterDirective(input)
  {
    forall k | 0 <= k < |input|
      ensures !MatchesAt(input, k)
    {
      assert input[k] in input;
    }
  }
}
