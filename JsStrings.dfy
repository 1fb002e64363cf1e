/**
 * The JavaScript string operations the filter relies on, over `seq<char>`:
 * `toLowerCase` (ASCII letters only), `includes`, `split` on one character,
 * `Array.prototype.join`, and `replace` with a one-space string pattern.
 */
module JsStrings {

  predicate IsUpperAscii(c: char)
  {
    'A' <= c <= 'Z'
  }

  /** ASCII-only case folding of one character. */
  function LowerChar(c: char): char
  {
    if IsUpperAscii(c) then (c as int + 32) as char else c
  }

  /** `s.toLowerCase()` / `s.toLocaleLowerCase()`, ASCII letters only. */
  function Lower(s: string): (r: string)
    ensures |r| == |s|
    ensures forall i :: 0 <= i < |s| && IsUpperAscii(s[i]) ==> r[i] as int == s[i] as int + 32
    ensures forall i :: 0 <= i < |s| && !IsUpperAscii(s[i]) ==> r[i] == s[i]
    ensures forall i :: 0 <= i < |s| ==> !IsUpperAscii(r[i])
  {
    seq(|s|, i requires 0 <= i < |s| => LowerChar(s[i]))
  }

  /** `s` and `t` differ at most in the case of ASCII letters. */
  predicate SameUpToCase(s: string, t: string)
  {
    && |s| == |t|
    && forall i :: 0 <= i < |s| ==>
         || s[i] == t[i]
         || (IsUpperAscii(s[i]) && t[i] as int == s[i] as int + 32)
         || (IsUpperAscii(t[i]) && s[i] as int == t[i] as int + 32)
  }

  /** Two strings lower-case to the same string exactly when they differ only in the case of ASCII letters. */
  lemma LowerEqualIff(s: string, t: string)
    ensures Lower(s) == Lower(t) <==> SameUpToCase(s, t)
  {
    if SameUpToCase(s, t) {
      assert forall i :: 0 <= i < |s| ==> Lower(s)[i] == Lower(t)[i];
    }
    if Lower(s) == Lower(t) {
      assert forall i :: 0 <= i < |s| ==> Lower(s)[i] == Lower(t)[i];
    }
  }

  /** `needle` occurs in `hay` starting at position `i`. */
  predicate OccursAt(hay: string, needle: string, i: int)
  {
    0 <= i <= |hay| - |needle| && hay[i..i + |needle|] == needle
  }

  /** `hay.includes(needle)`, scanning `hay` from the left. */
  function Includes(hay: string, needle: string): bool
    decreases |hay|
  {
    if needle <= hay then true
    else if hay == [] then false
    else Includes(hay[1..], needle)
  }

  /** `Includes` holds exactly when the needle occurs at some position. */
  lemma IncludesIff(hay: string, needle: string)
    ensures Includes(hay, needle) <==> exists i :: OccursAt(hay, needle, i)
  {
    if Includes(hay, needle) {
      var i := IncludesSound(hay, needle);
    }
    forall i | OccursAt(hay, needle, i)
      ensures Includes(hay, needle)
    {
      IncludesComplete(hay, needle, i);
    }
  }

  /** When `Includes` holds, it found an occurrence. */
  lemma {:induction false} IncludesSound(hay: string, needle: string) returns (i: nat)
    requires Includes(hay, needle)
    ensures OccursAt(hay, needle, i)
    decreases |hay|
  {
    if needle <= hay {
      i := 0;
      assert hay[..|needle|] == needle;
    } else {
      var j := IncludesSound(hay[1..], needle);
      i := j + 1;
      assert hay[i..i + |needle|] == hay[1..][j..j + |needle|];
    }
  }

  /** Every occurrence is found by `Includes`. */
  lemma {:induction false} IncludesComplete(hay: string, needle: string, i: nat)
    requires OccursAt(hay, needle, i)
    ensures Includes(hay, needle)
    decreases i
  {
    if i > 0 && !(needle <= hay) {
      assert hay[1..][i - 1..i - 1 + |needle|] == hay[i..i + |needle|];
      IncludesComplete(hay[1..], needle, i - 1);
    }
  }

  /** `s.split(sep)` for a one-character separator; always at least one token. */
  function Split(s: string, sep: char): (r: seq<string>)
    ensures |r| >= 1
    ensures forall k :: 0 <= k < |r| ==> sep !in r[k]
    decreases |s|
  {
    if s == [] then [""]
    else if s[0] == sep then [""] + Split(s[1..], sep)
    else
      var rest := Split(s[1..], sep);
      [[s[0]] + rest[0]] + rest[1..]
  }

  /** `tokens.join(sep)`; this is also what `String(array)` gives for `sep == ','`. */
  function Join(tokens: seq<string>, sep: char): string
  {
    if tokens == [] then ""
    else if |tokens| == 1 then tokens[0]
    else tokens[0] + [sep] + Join(tokens[1..], sep)
  }

  /** Number of occurrences of `c` in `s`. */
  function Count(s: string, c: char): nat
  {
    if s == [] then 0 else (if s[0] == c then 1 else 0) + Count(s[1..], c)
  }

  /** Splitting then joining on the same separator gives back the string. */
  lemma {:induction false} JoinSplit(s: string, sep: char)
    ensures Join(Split(s, sep), sep) == s
    decreases |s|
  {
    if s == [] {
    } else if s[0] == sep {
      JoinSplit(s[1..], sep);
      var rest := Split(s[1..], sep);
      assert Split(s, sep) == [""] + rest;
      assert ([""] + rest)[1..] == rest;
    } else {
      JoinSplit(s[1..], sep);
      var rest := Split(s[1..], sep);
      var r := [[s[0]] + rest[0]] + rest[1..];
      assert r[1..] == rest[1..];
      if |rest| == 1 {
      } else {
        assert Join(rest, sep) == rest[0] + [sep] + Join(rest[1..], sep);
      }
    }
  }

  /** Joining separator-free tokens then splitting gives back the tokens. */
  lemma {:induction false} SplitJoin(tokens: seq<string>, sep: char)
    requires |tokens| >= 1
    requires forall k :: 0 <= k < |tokens| ==> sep !in tokens[k]
    ensures Split(Join(tokens, sep), sep) == tokens
    decreases |tokens|
  {
    if |tokens| == 1 {
      SplitNoSeparator(tokens[0], sep);
    } else {
      SplitJoin(tokens[1..], sep);
      SplitPrefix(tokens[0], Join(tokens[1..], sep), sep);
      assert [tokens[0]] + tokens[1..] == tokens;
    }
  }

  /** A string without the separator splits into itself. */
  lemma {:induction false} SplitNoSeparator(s: string, sep: char)
    requires sep !in s
    ensures Split(s, sep) == [s]
    decreases |s|
  {
    if s != [] {
      assert s[0] != sep;
      SplitNoSeparator(s[1..], sep);
      assert [s[0]] + s[1..] == s;
    }
  }

  /** Splitting `t + [sep] + rest`, where `t` has no separator, yields `t` then the split of `rest`. */
  lemma {:induction false} SplitPrefix(t: string, rest: string, sep: char)
    requires sep !in t
    ensures Split(t + [sep] + rest, sep) == [t] + Split(rest, sep)
    decreases |t|
  {
    if t == [] {
      assert t + [sep] + rest == [sep] + rest;
      assert ([sep] + rest)[1..] == rest;
    } else {
      var s := t + [sep] + rest;
      assert s[0] == t[0] && s[1..] == t[1..] + [sep] + rest;
      SplitPrefix(t[1..], rest, sep);
      assert [t[0]] + t[1..] == t;
    }
  }

  /** Split yields one token more than there are separators. */
  lemma {:induction false} SplitCount(s: string, sep: char)
    ensures |Split(s, sep)| == Count(s, sep) + 1
    decreases |s|
  {
    if s != [] {
      SplitCount(s[1..], sep);
    }
  }

  /** Index of the first `c` in `s`, or `|s|` when there is none. */
  function IndexOf(s: string, c: char): (i: nat)
    ensures i <= |s|
    ensures i < |s| ==> s[i] == c
    ensures c !in s[..i]
    ensures i == |s| <==> c !in s
    decreases |s|
  {
    if s == [] then 0
    else if s[0] == c then 0
    else
      var j := IndexOf(s[1..], c);
      assert s[..j + 1] == [s[0]] + s[1..][..j];
      assert s == [s[0]] + s[1..];
      j + 1
  }

  /** The first `c` in `a + [c] + b`, when `a` has none, is the one after `a`. */
  lemma IndexOfFirst(a: string, c: char, b: string)
    requires c !in a
    ensures IndexOf(a + [c] + b, c) == |a|
  {
    var s := a + [c] + b;
    assert s[|a|] == c;
  }

  /**
   * `s.replace(" ", "")`: a string pattern replaces only its FIRST
   * occurrence, wherever it is, so only the first space is removed.
   */
  function RemoveFirstSpace(s: string): string
    decreases |s|
  {
    if s == [] then s
    else if s[0] == ' ' then s[1..]
    else [s[0]] + RemoveFirstSpace(s[1..])
  }

  /** RemoveFirstSpace cuts out exactly the character at the first space, and is the identity without one. */
  lemma {:induction false} RemoveFirstSpaceCutsFirst(s: string)
    ensures var i := IndexOf(s, ' ');
      RemoveFirstSpace(s) == if i < |s| then s[..i] + s[i + 1..] else s
  {
    var i := IndexOf(s, ' ');
    if i < |s| {
      assert s == s[..i] + " " + s[i + 1..];
      RemoveFirstSpaceAt(s[..i], s[i + 1..]);
    } else {
      RemoveFirstSpaceNone(s);
    }
  }

  /** A string without a space is left as it is. */
  lemma {:induction false} RemoveFirstSpaceNone(s: string)
    requires ' ' !in s
    ensures RemoveFirstSpace(s) == s
    decreases |s|
  {
    if s != [] {
      assert ' ' !in s[1..];
      RemoveFirstSpaceNone(s[1..]);
      assert [s[0]] + s[1..] == s;
    }
  }

  /** With no space before it, the first space is the one removed, whatever follows. */
  lemma {:induction false} RemoveFirstSpaceAt(a: string, b: string)
    requires ' ' !in a
    ensures RemoveFirstSpace(a + " " + b) == a + b
    decreases |a|
  {
    if a == [] {
      assert a + " " + b == [' '] + b;
    } else {
      RemoveFirstSpaceAt(a[1..], b);
      assert (a + " " + b)[1..] == a[1..] + " " + b;
      assert [a[0]] + (a[1..] + b) == a + b;
    }
  }

  /** Lower-casing distributes over concatenation. */
  lemma LowerAppend(a: string, b: string)
    ensures Lower(a + b) == Lower(a) + Lower(b)
  {
  }

  /** Lower-casing neither creates nor removes a space or a comma. */
  lemma LowerKeepsPunctuation(s: string)
    ensures ' ' in Lower(s) <==> ' ' in s
    ensures ',' in Lower(s) <==> ',' in s
  {
    assert forall i :: 0 <= i < |s| ==> (Lower(s)[i] == ' ' <==> s[i] == ' ');
    assert forall i :: 0 <= i < |s| ==> (Lower(s)[i] == ',' <==> s[i] == ',');
  }
}
