/** ASCII models of the Python string operations the auditor relies on:
    str.strip(), str.lower(), str.split() with no argument, str.strip('"'),
    str.startswith and "sep".join(parts). */
module Text {

  /** Python's str.isspace restricted to ASCII: \t \n \v \f \r, the
      separators \x1c-\x1f, and the space. */
  predicate IsSpace(c: char) {
    9 <= c as int <= 13 || 28 <= c as int <= 32
  }

  predicate IsUpper(c: char) {
    'A' <= c <= 'Z'
  }

  function LowerChar(c: char): (d: char)
    ensures !IsUpper(d)
    ensures IsSpace(d) <==> IsSpace(c)
    ensures IsUpper(c) ==> d as int == c as int + 32
    ensures !IsUpper(c) ==> d == c
  {
    if IsUpper(c) then (c as int + 32) as char else c
  }

  /** str.lower() on ASCII letters. */
  function Lower(s: string): string {
    if s == [] then [] else [LowerChar(s[0])] + Lower(s[1..])
  }

  /** Lowering keeps the length and lowers each character in place. */
  lemma {:induction false} LowerAt(s: string)
    ensures |Lower(s)| == |s|
    ensures forall i :: 0 <= i < |s| ==> Lower(s)[i] == LowerChar(s[i])
  {
    if s != [] {
      LowerAt(s[1..]);
    }
  }

  /** Removes every leading whitespace character. */
  function TrimLeft(s: string): string {
    if |s| > 0 && IsSpace(s[0]) then TrimLeft(s[1..]) else s
  }

  /** TrimLeft drops exactly the longest all-whitespace prefix. */
  lemma {:induction false} TrimLeftSpec(s: string)
    ensures |TrimLeft(s)| <= |s| && TrimLeft(s) == s[|s| - |TrimLeft(s)|..]
    ensures forall i :: 0 <= i < |s| - |TrimLeft(s)| ==> IsSpace(s[i])
    ensures TrimLeft(s) == [] || !IsSpace(TrimLeft(s)[0])
  {
    if |s| > 0 && IsSpace(s[0]) {
      TrimLeftSpec(s[1..]);
    }
  }

  /** Removes every trailing whitespace character. */
  function TrimRight(s: string): string {
    if |s| > 0 && IsSpace(s[|s| - 1]) then TrimRight(s[..|s| - 1]) else s
  }

  /** TrimRight drops exactly the longest all-whitespace suffix. */
  lemma {:induction false} TrimRightSpec(s: string)
    ensures |TrimRight(s)| <= |s| && TrimRight(s) == s[..|TrimRight(s)|]
    ensures forall i :: |TrimRight(s)| <= i < |s| ==> IsSpace(s[i])
    ensures TrimRight(s) == [] || !IsSpace(TrimRight(s)[|TrimRight(s)| - 1])
  {
    if |s| > 0 && IsSpace(s[|s| - 1]) {
      TrimRightSpec(s[..|s| - 1]);
    }
  }

  /** str.strip() with no argument. */
  function Strip(s: string): string {
    TrimRight(TrimLeft(s))
  }

  /** The strip of a string neither starts nor ends with whitespace. */
  lemma StripEnds(s: string)
    ensures Strip(s) == [] || (!IsSpace(Strip(s)[0]) && !IsSpace(Strip(s)[|Strip(s)| - 1]))
  {
    var t := TrimLeft(s);
    TrimLeftSpec(s);
    TrimRightSpec(t);
  }

  /** The normalised lookup key every case-insensitive table uses:
      name.strip().lower(). */
  function Key(s: string): string {
    Lower(Strip(s))
  }

  /** A string with no whitespace at either end is its own strip. */
  lemma {:induction false} StripOfTrimmed(s: string)
    requires s == [] || (!IsSpace(s[0]) && !IsSpace(s[|s| - 1]))
    ensures Strip(s) == s
  {
    assert TrimLeft(s) == s;
    assert TrimRight(s) == s;
  }

  lemma StripIdempotent(s: string)
    ensures Strip(Strip(s)) == Strip(s)
  {
    StripEnds(s);
    StripOfTrimmed(Strip(s));
  }

  /** Normalising an already stripped name gives the same key: the key of
      the leaf `name.strip()` that an expansion returns is the key that was
      recorded as visited. */
  lemma KeyOfStrip(s: string)
    ensures Key(Strip(s)) == Key(s)
  {
    StripIdempotent(s);
  }

  /** Whitespace-free, non-empty text is stripped and split to itself. */
  predicate IsWord(s: string) {
    s != [] && forall i :: 0 <= i < |s| ==> !IsSpace(s[i])
  }

  /** Length of the leading run of non-whitespace characters. */
  function WordLength(s: string): (n: nat)
    ensures n <= |s|
    ensures forall i :: 0 <= i < n ==> !IsSpace(s[i])
    ensures n < |s| ==> IsSpace(s[n])
  {
    if s == [] || IsSpace(s[0]) then 0 else 1 + WordLength(s[1..])
  }

  /** str.split() with no argument: the maximal runs of non-whitespace
      characters, in order. */
  function Split(s: string): (words: seq<string>)
    ensures forall i :: 0 <= i < |words| ==> IsWord(words[i])
    decreases |s|
  {
    var t := TrimLeft(s);
    TrimLeftSpec(s);
    if t == [] then []
    else
      var n := WordLength(t);
      [t[..n]] + Split(t[n..])
  }

  lemma {:induction false} SplitOfWord(s: string)
    requires IsWord(s)
    ensures Split(s) == [s]
  {
    assert TrimLeft(s) == s;
    assert s[0..] == s;
    var n := WordLength(s);
    assert n == |s|;
    assert s[n..] == [];
    assert s[..n] == s;
  }

  lemma {:induction false} SplitOfBlank(s: string)
    requires forall i :: 0 <= i < |s| ==> IsSpace(s[i])
    ensures Split(s) == []
  {
    TrimLeftSpec(s);
  }

  /** s.startswith(prefix) */
  predicate StartsWith(s: string, prefix: string) {
    |prefix| <= |s| && s[..|prefix|] == prefix
  }

  /** s.strip(c) for a single character c: removes every leading and
      trailing occurrence of c. */
  function StripChar(s: string, c: char): (r: string)
    ensures r == [] || (r[0] != c && r[|r| - 1] != c)
    ensures |r| <= |s|
    decreases |s|
  {
    if |s| > 0 && s[0] == c then StripChar(s[1..], c)
    else if |s| > 0 && s[|s| - 1] == c then StripChar(s[..|s| - 1], c)
    else s
  }

  /** sep.join(parts) */
  function Join(parts: seq<string>, sep: string): string {
    if parts == [] then ""
    else if |parts| == 1 then parts[0]
    else parts[0] + sep + Join(parts[1..], sep)
  }

  /** Appending one part to a non-empty join puts one separator before it:
      the shape in which a line-accumulating loop sees the join grow. */
  lemma {:induction false} JoinSnoc(parts: seq<string>, sep: string, last: string)
    ensures Join(parts + [last], sep)
         == if parts == [] then last else Join(parts, sep) + sep + last
  {
    if parts == [] {
      assert parts + [last] == [last];
    } else if |parts| == 1 {
      assert parts + [last] == [parts[0], last];
      assert (parts + [last])[1..] == [last];
    } else {
      assert (parts + [last])[1..] == parts[1..] + [last];
      JoinSnoc(parts[1..], sep, last);
    }
  }
}
