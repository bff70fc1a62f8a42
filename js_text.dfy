/**
 * The JavaScript string behaviour the extension relies on, over Dafny strings
 * (sequences of Unicode scalar values).
 */
module JsText {
  import opened Wrappers
  import opened Seqs

  /** Truthiness of an optional string field: absent and "" are falsy. */
  predicate Truthy(field: Option<string>) {
    field.Some? && field.value != ""
  }

  /**
   * The string a Web API sees when handed an optional field:
   * `undefined` converts to the string "undefined".
   */
  function ToJsString(field: Option<string>): string {
    match field
    case Some(s) => s
    case None => "undefined"
  }

  /** `s.startsWith(prefix)`. */
  predicate StartsWith(s: string, prefix: string) {
    |prefix| <= |s| && s[..|prefix|] == prefix
  }

  /** `s.endsWith(suffix)`. */
  predicate EndsWith(s: string, suffix: string) {
    |suffix| <= |s| && s[|s| - |suffix|..] == suffix
  }

  /**
   * The code points `String.prototype.trim` removes: WhiteSpace (tab, vertical
   * tab, form feed, ZWNBSP and the Zs category) and LineTerminator.
   */
  predicate IsWhiteSpace(c: char) {
    || c == '\t' || c == '\n' || c == '\U{000B}' || c == '\U{000C}' || c == '\r'
    || c == ' ' || c == '\U{00A0}' || c == '\U{1680}'
    || ('\U{2000}' <= c <= '\U{200A}')
    || c == '\U{2028}' || c == '\U{2029}' || c == '\U{202F}' || c == '\U{205F}'
    || c == '\U{3000}' || c == '\U{FEFF}'
  }

  predicate AllWhiteSpace(s: string) {
    forall k :: 0 <= k < |s| ==> IsWhiteSpace(s[k])
  }

  /** `s` without its leading white space. */
  function TrimStart(s: string): (r: string)
    ensures |r| <= |s| && r == s[|s| - |r|..]
    ensures AllWhiteSpace(s[..|s| - |r|])
    ensures r == [] || !IsWhiteSpace(r[0])
  {
    if s != [] && IsWhiteSpace(s[0]) then TrimStart(s[1..]) else s
  }

  /** `s` without its trailing white space. */
  function TrimEnd(s: string): (r: string)
    ensures |r| <= |s| && r == s[..|r|]
    ensures AllWhiteSpace(s[|r|..])
    ensures r == [] || !IsWhiteSpace(r[|r| - 1])
  {
    if s != [] && IsWhiteSpace(s[|s| - 1]) then TrimEnd(s[..|s| - 1]) else s
  }

  /** `s.trim()`: neither end of the result is white space. */
  function Trim(s: string): (r: string)
    ensures r == [] || (!IsWhiteSpace(r[0]) && !IsWhiteSpace(r[|r| - 1]))
  {
    TrimEnd(TrimStart(s))
  }

  /**
   * `trim` only cuts white space: its result is an infix of `s` with nothing
   * but white space on either side.
   */
  lemma TrimCutsWhiteSpace(s: string)
    ensures var r := Trim(s);
            exists i :: 0 <= i <= |s| - |r| && r == s[i..i + |r|]
                        && AllWhiteSpace(s[..i]) && AllWhiteSpace(s[i + |r|..])
  {
    var t := TrimStart(s);
    var r := TrimEnd(t);
    var i := |s| - |t|;
    SliceOfDrop(s, i, |r|);
    assert 0 <= i <= |s| - |r| && r == s[i..i + |r|]
           && AllWhiteSpace(s[..i]) && AllWhiteSpace(s[i + |r|..]);
  }

  /** Trimming twice is trimming once. */
  lemma TrimIdempotent(s: string)
    ensures Trim(Trim(s)) == Trim(s)
  {
    var r := Trim(s);
    var t := TrimStart(r);
    assert t == r;
    assert TrimEnd(r) == r;
  }
}
