/** The JavaScript string primitives the review script relies on.

    A JavaScript string is a sequence of UTF-16 code units, and `length`,
    `slice` and `split` all count code units. The model therefore works on
    `seq<CodeUnit>` throughout; the script's own string literals, written
    here as Dafny strings, are turned into code units by `Units`.
 */
module JsString {

  /** Absent-or-present value, used for JavaScript's `undefined`. */
  datatype Option<+T> = None | Some(value: T)

  /** One UTF-16 code unit. */
  newtype CodeUnit = u: int | 0 <= u < 0x1_0000

  /** A JavaScript string value. */
  type JsStr = seq<CodeUnit>

  /** The code unit of "\n", the separator `dedent` splits and joins on. */
  const LF: CodeUnit := 0x0A

  function Min(a: int, b: int): int {
    if a <= b then a else b
  }

  /** `s.slice(start)` with one integer argument: a negative start counts
      back from the end, and a start past either end is clamped to it. */
  function Slice<T>(s: seq<T>, start: int): (r: seq<T>)
    ensures |r| <= |s| && r == s[|s| - |r|..]
    ensures start >= 0 ==> |r| == |s| - Min(start, |s|)
    ensures start < 0 ==> |r| == Min(-start, |s|)
  {
    if start < 0 then
      (if |s| + start < 0 then s else s[|s| + start..])
    else if start < |s| then s[start..]
    else []
  }

  /** Text whose every character lies in the Basic Multilingual Plane,
      as all of the script's own string literals do. */
  predicate Bmp(s: string) {
    forall i :: 0 <= i < |s| ==> s[i] as int < 0x1_0000
  }

  /** How the JavaScript engine holds such a literal: one code unit per
      character, equal to its code point. */
  function Units(s: string): (r: JsStr)
    requires Bmp(s)
    ensures |r| == |s|
    ensures forall i :: 0 <= i < |s| ==> r[i] as int == s[i] as int
  {
    seq(|s|, i requires 0 <= i < |s| => s[i] as int as CodeUnit)
  }

  /** Every line of a multi-line literal lies in the Basic Multilingual Plane. */
  predicate AllBmp(ls: seq<string>) {
    forall i :: 0 <= i < |ls| ==> Bmp(ls[i])
  }

  /** Each line of a literal, encoded. */
  function EncodeAll(ls: seq<string>): (r: seq<JsStr>)
    requires AllBmp(ls)
    ensures |r| == |ls|
    ensures forall i :: 0 <= i < |ls| ==> r[i] == Units(ls[i])
  {
    seq(|ls|, i requires 0 <= i < |ls| => Units(ls[i]))
  }

  lemma UnitsAppend(a: string, b: string)
    requires Bmp(a) && Bmp(b)
    ensures Bmp(a + b) && Units(a + b) == Units(a) + Units(b)
  {
  }

  /** The encoding holds a line feed exactly where the text does. */
  lemma UnitsLineFeed(s: string)
    requires Bmp(s)
    ensures LF in Units(s) <==> '\n' in s
  {
    if LF in Units(s) {
      var k :| 0 <= k < |s| && Units(s)[k] == LF;
      assert s[k] == '\n';
    }
    if '\n' in s {
      var k :| 0 <= k < |s| && s[k] == '\n';
      assert Units(s)[k] == LF;
    }
  }
}
