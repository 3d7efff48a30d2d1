/** The string helpers the screens use for labels and file names: `toUpperCase`,
    `replace` with a string pattern (first occurrence only), "capitalise the first letter",
    and `split('.').pop()`. */
module Text {
  import opened Wrappers

  /** Upper-casing one character; only the ASCII letters are mapped. */
  function UpperChar(c: char): char {
    if 'a' <= c <= 'z' then (c as int - 32) as char else c
  }

  /** `s.toUpperCase()` over ASCII. */
  function ToUpper(s: string): (r: string)
    ensures |r| == |s|
    ensures forall i :: 0 <= i < |s| ==> r[i] == UpperChar(s[i])
  {
    if |s| == 0 then [] else [UpperChar(s[0])] + ToUpper(s[1..])
  }

  /** The position of the first `c` in `s`, if any. */
  function FirstIndex(s: string, c: char): (k: Option<nat>)
    ensures k.None? <==> c !in s
    ensures k.Some? ==> k.value < |s| && s[k.value] == c && c !in s[..k.value]
  {
    if |s| == 0 then None
    else if s[0] == c then Some(0)
    else
      match FirstIndex(s[1..], c)
      case None => None
      case Some(k) =>
        assert s[..k + 1] == [s[0]] + s[1..][..k];
        Some(k + 1)
  }

  /** `s.replace(from, to)` with a one-character string pattern: only the first occurrence
      is replaced. */
  function ReplaceFirst(s: string, from: char, to: char): (r: string)
    ensures |r| == |s|
    ensures from !in s ==> r == s
    ensures from in s ==>
              var k := FirstIndex(s, from).value;
              r[k] == to && forall i :: 0 <= i < |s| && i != k ==> r[i] == s[i]
  {
    match FirstIndex(s, from)
    case None => s
    case Some(k) => s[..k] + [to] + s[k + 1..]
  }

  /** `s.charAt(0).toUpperCase() + s.slice(1)`. */
  function Capitalize(s: string): (r: string)
    ensures |r| == |s|
    ensures |s| > 0 ==> r[0] == UpperChar(s[0]) && r[1..] == s[1..]
  {
    if |s| == 0 then "" else [UpperChar(s[0])] + s[1..]
  }

  /** `name.split('.').pop()`: the text after the last dot, or the whole name when it has no
      dot at all. */
  method AfterLastDot(name: string) returns (ext: string)
    ensures '.' !in ext
    ensures |ext| <= |name| && ext == name[|name| - |ext|..]
    ensures '.' !in name ==> ext == name
    ensures '.' in name ==> name[|name| - |ext| - 1] == '.'
  {
    var i := |name|;
    while i > 0 && name[i - 1] != '.'
      invariant 0 <= i <= |name|
      invariant '.' !in name[i..]
      decreases i
    {
      assert name[i - 1..] == [name[i - 1]] + name[i..];
      i := i - 1;
    }
    ext := name[i..];
    if i == 0 {
      assert name[0..] == name;
    }
  }
}
