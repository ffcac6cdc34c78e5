/** What every .reg writer shares: the header line, line breaks, and the text it emits. */
module RegText {
  import opened Wrappers
  import opened Strings

  const CRLF: string := "\r\n"

  /** The first line of every file a writer produces (RegDocument.VER_LINE). */
  const VER_LINE: string := "Windows Registry Editor Version 5.00"

  /** Text written, and the exception that stopped the writing, if any. */
  datatype Emitted = Emitted(text: string, failure: Option<Failure>)

  /** What a writer's DeleteKey(path) appends: an empty line and the deletion header. */
  function DeleteKeyText(path: string): (s: string)
    ensures |s| == |path| + 7
    ensures s[..4] == CRLF + "[-" && s[4..|s| - 3] == path && s[|s| - 3..] == "]" + CRLF
  {
    CRLF + "[-" + path + "]" + CRLF
  }

  /** What a writer's SetKey(path) appends: an empty line and the key header. */
  function SetKeyText(path: string): (s: string)
    ensures |s| == |path| + 6
    ensures s[..3] == CRLF + "[" && s[3..|s| - 3] == path && s[|s| - 3..] == "]" + CRLF
  {
    CRLF + "[" + path + "]" + CRLF
  }

  lemma Regroup(a: string, b: string, c: string, d: string)
    ensures a + b + (c + d) == a + (b + c) + d
  {
  }

  /** The text between a prefix and a suffix is what was put there. */
  lemma Infix(p: string, h: string, q: string)
    ensures (p + h + q)[|p|..|p + h + q| - |q|] == h
  {
    assert (p + h + q)[|p|..|p + h + q| - |q|] == (p + h + q)[|p|..|p| + |h|];
  }
}
