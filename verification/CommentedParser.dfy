/** `json_parse_string_with_comments`: blanks the comments in a copy of the text and parses the copy. */
module CommentedParser {
  import opened Bytes
  import opened Memory
  import opened Comments
  import opened CommentedJson
  import opened Heap
  import opened TreeParser
  import P = Parser

  /** `json_parse_string_with_comments`. */
  method JsonParseStringWithComments(mem: Mem, s: Bytes) returns (v: Value?)
    requires NulFree(s)
    modifies mem
    ensures v == null ==> mem.live == old(mem.live)
    ensures v == null ==> ParseWithComments(s).Fail? || mem.FailedSince(old(mem.requests))
    ensures v != null ==> ParseWithComments(s).Ok? && Built(mem, v, ParseWithComments(s).value)
  {
    hide P.ParseValue, Value.Valid, Blank;
    v := null;
    var copy := CopyText(s);
    var granted := mem.Malloc(copy);
    if !granted {
      return;
    }
    RemoveComments(copy, BLOCK_OPEN, BLOCK_CLOSE, |s|);
    RemoveComments(copy, LINE_OPEN, LINE_CLOSE, |s|);
    var next;
    v, next := ReadValue(mem, copy[..|s|], 0, 0);
    mem.Free(copy);
  }

  /** What `parson_strdup` puts into its block: the text and a NUL. */
  method CopyText(s: Bytes) returns (copy: array<byte>)
    ensures fresh(copy) && copy.Length == |s| + 1 && copy[..|s|] == s && copy[|s|] == NUL
  {
    copy := new byte[|s| + 1](i => if 0 <= i < |s| then s[i] else NUL);
    assert copy[..|s|] == s;
  }
}
