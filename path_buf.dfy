/**
 * `PathBufLongExt::long_ext` (crates/base/src/util/path_buf.rs): the "long extension"
 * of a path's file name, everything after its first `.`.
 *
 * Strings are sequences of characters. Rust's `find` yields a byte offset and
 * `split_at(p+1)` splits there; as `.` is a single byte, that is the same split as
 * the character index used here.
 */
module PathBuf {
  import opened Wrappers

  /** An operating-system file name: valid UTF-8 text, or bytes that are not. */
  datatype OsName = Unicode(text: string) | NotUnicode

  /** `OsStr::to_str`: the text of the name, if it is valid UTF-8. */
  function ToStr(name: OsName): (r: Option<string>)
    ensures r.Some? <==> name.Unicode?
  {
    match name
    case Unicode(text) => Some(text)
    case NotUnicode => None
  }

  /** `str::find` for one character: the index of its first occurrence. */
  function Find(s: string, c: char): (r: Option<nat>)
    ensures r.None? <==> c !in s
    ensures r.Some? ==> r.value < |s| && s[r.value] == c && c !in s[..r.value]
  {
    if |s| == 0 then None
    else if s[0] == c then Some(0)
    else
      match Find(s[1..], c)
      case None => None
      case Some(p) =>
        assert s[..p + 1] == [s[0]] + s[1..][..p];
        Some(p + 1)
  }

  /**
   * The text after the first `.` of a name, if it has one: the name is that text
   * preceded by a dot-free prefix and the dot, so the result is a strictly shorter
   * suffix of the name.
   */
  function SplitLongExt(name: string): (r: Option<string>)
    ensures r.None? <==> '.' !in name
    ensures r.Some? ==> |r.value| < |name|
    ensures r.Some? ==> name[|name| - |r.value|..] == r.value
    ensures r.Some? ==> var p := |name| - |r.value| - 1;
      name == name[..p] + "." + r.value && '.' !in name[..p]
  {
    match Find(name, '.')
    case None => None
    case Some(p) =>
      assert name == name[..p] + "." + name[p + 1..];
      Some(name[p + 1..])
  }

  /** `long_ext`: absent and non-UTF-8 names have none; otherwise SplitLongExt of the text. */
  function LongExt(fileName: Option<OsName>): (r: Option<string>)
    ensures r.Some? <==> fileName.Some? && fileName.value.Unicode? && '.' in fileName.value.text
    ensures r.Some? ==> var name := fileName.value.text;
      |r.value| < |name| && name[|name| - |r.value|..] == r.value
  {
    match fileName
    case None => None
    case Some(name) =>
      match ToStr(name)
      case None => None
      case Some(text) => SplitLongExt(text)
  }

  /** The converse of SplitLongExt's contract: a dot-free prefix, a dot, and the result is what follows. */
  lemma LongExtOfJoin(prefix: string, ext: string)
    requires '.' !in prefix
    ensures SplitLongExt(prefix + "." + ext) == Some(ext)
  {
    var name := prefix + "." + ext;
    var r := SplitLongExt(name);
    assert name[|prefix|] == '.';
    assert '.' in name;
    assert name[|prefix| + 1..] == ext;
  }

  /** SplitLongExt returns `ext` exactly when the name is a dot-free prefix, a dot, and `ext`. */
  lemma LongExtIff(name: string, ext: string)
    ensures SplitLongExt(name) == Some(ext) <==>
      (|ext| < |name| && var p := |name| - |ext| - 1;
        name == name[..p] + "." + ext && '.' !in name[..p])
  {
    if |ext| < |name| {
      var p := |name| - |ext| - 1;
      if name == name[..p] + "." + ext && '.' !in name[..p] {
        LongExtOfJoin(name[..p], ext);
      }
    }
  }

  /** A name starting with `.` has everything after that dot as its long extension. */
  lemma LeadingDot(rest: string)
    ensures SplitLongExt("." + rest) == Some(rest)
  {
    LongExtOfJoin("", rest);
    assert "" + "." + rest == "." + rest;
  }

  /** A name whose first dot is its last character has the empty long extension. */
  lemma TrailingFirstDot(prefix: string)
    requires '.' !in prefix
    ensures SplitLongExt(prefix + ".") == Some("")
  {
    LongExtOfJoin(prefix, "");
    assert prefix + "." + "" == prefix + ".";
  }
}
