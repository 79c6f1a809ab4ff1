/**
 * The Python string built-ins the pipeline relies on: `str.isspace`,
 * `strip`, `split()` on whitespace, `split(c)` on one character,
 * `sep.join(parts)`, slice bounds and `str(n)` for a natural number.
 * Strings are sequences of Unicode code points, as in Python 3.
 */
module PyStr {
  import opened SeqFacts

  /** Python's whitespace set, shared by `str.split()` and `str.strip()`. */
  predicate IsSpace(c: char)
  {
    || ('\t' <= c <= '\r')
    || ('\U{1C}' <= c <= '\U{1F}')
    || c == ' '
    || c == '\U{85}'
    || c == '\U{A0}'
    || c == '\U{1680}'
    || ('\U{2000}' <= c <= '\U{200A}')
    || c == '\U{2028}'
    || c == '\U{2029}'
    || c == '\U{202F}'
    || c == '\U{205F}'
    || c == '\U{3000}'
  }

  predicate AllSpace(s: string)
  {
    forall i :: 0 <= i < |s| ==> IsSpace(s[i])
  }

  predicate NoSpace(s: string)
  {
    forall i :: 0 <= i < |s| ==> !IsSpace(s[i])
  }

  /** `s.lstrip()`: drops the whitespace prefix and nothing else. */
  function TrimLeft(s: string): (r: string)
    ensures |r| <= |s| && r == s[|s| - |r|..]
    ensures AllSpace(s[..|s| - |r|])
    ensures r == [] || !IsSpace(r[0])
  {
    if s != [] && IsSpace(s[0]) then
      var r := TrimLeft(s[1..]);
      assert forall i :: 1 <= i < |s| - |r| ==> s[i] == s[1..][..|s| - 1 - |r|][i - 1];
      r
    else s
  }

  /** `s.rstrip()`: drops the whitespace suffix and nothing else. */
  function TrimRight(s: string): (r: string)
    ensures |r| <= |s| && r == s[..|r|]
    ensures AllSpace(s[|r|..])
    ensures r == [] || !IsSpace(r[|r| - 1])
  {
    if s != [] && IsSpace(s[|s| - 1]) then
      var r := TrimRight(s[..|s| - 1]);
      assert s[|r|..] == s[..|s| - 1][|r|..] + [s[|s| - 1]];
      r
    else s
  }

  /** `s.strip()` */
  function Strip(s: string): (r: string)
    ensures r == [] <==> AllSpace(s)
    ensures r != [] ==> !IsSpace(r[0]) && !IsSpace(r[|r| - 1])
    ensures forall c :: c in r ==> c in s
  {
    StripParts(s);
    TrimRight(TrimLeft(s))
  }

  lemma StripParts(s: string)
    ensures TrimRight(TrimLeft(s)) == [] <==> AllSpace(s)
    ensures forall c :: c in TrimRight(TrimLeft(s)) ==> c in s
  {
    var l := TrimLeft(s);
    TrimLeftBlank(s);
    TrimRightBlank(l);
    assert l != [] ==> !AllSpace(l);
    TrimmedChars(s);
  }

  /** `s.lstrip()` is empty exactly when `s` is blank. */
  lemma TrimLeftBlank(s: string)
    ensures TrimLeft(s) == [] <==> AllSpace(s)
  {
    var l := TrimLeft(s);
    if l == [] {
      assert s[..|s|] == s;
    } else {
      assert l[0] == s[|s| - |l|];
    }
  }

  /** `s.rstrip()` is empty exactly when `s` is blank. */
  lemma TrimRightBlank(s: string)
    ensures TrimRight(s) == [] <==> AllSpace(s)
  {
    var r := TrimRight(s);
    if r == [] {
      assert s[0..] == s;
    } else {
      assert r[|r| - 1] == s[|r| - 1];
    }
  }

  /** Stripping keeps only characters of the original. */
  lemma TrimmedChars(s: string)
    ensures forall c :: c in TrimRight(TrimLeft(s)) ==> c in s
  {
    var l := TrimLeft(s);
    var r := TrimRight(l);
    assert forall c :: c in r ==> c in l by {
      assert r == l[..|r|];
    }
    assert forall c :: c in l ==> c in s by {
      assert l == s[|s| - |l|..];
    }
  }

  /** No whitespace at either end. */
  predicate Unpadded(s: string)
  {
    s == [] || (!IsSpace(s[0]) && !IsSpace(s[|s| - 1]))
  }

  /** `strip()` leaves no whitespace at either end, so stripping twice is stripping once. */
  lemma StripIdempotent(s: string)
    ensures Unpadded(Strip(s))
    ensures Strip(Strip(s)) == Strip(s)
  {
    var a := Strip(s);
    if a != [] {
      StripFixed(a);
    } else {
      assert AllSpace(a);
    }
  }

  lemma StripFixed(s: string)
    requires s != [] && !IsSpace(s[0]) && !IsSpace(s[|s| - 1])
    ensures Strip(s) == s
  {
  }

  /** The length of the word at the start of `s`: up to the first whitespace. */
  function WordEnd(s: string): (n: nat)
    ensures n <= |s| && NoSpace(s[..n])
    ensures n < |s| ==> IsSpace(s[n])
  {
    if s == [] || IsSpace(s[0]) then 0 else 1 + WordEnd(s[1..])
  }

  /** `s.split()`: the maximal runs of non-whitespace characters, in order. */
  function Words(s: string): (ws: seq<string>)
    ensures forall w :: w in ws ==> w != [] && NoSpace(w)
    decreases |s|
  {
    var t := TrimLeft(s);
    if t == [] then []
    else
      var n := WordEnd(t);
      [t[..n]] + Words(t[n..])
  }

  /** `sep.join(parts)` */
  function Join(sep: string, parts: seq<string>): (r: string)
    ensures parts != [] ==> |parts[0]| <= |r| && r[..|parts[0]|] == parts[0]
  {
    if |parts| == 0 then ""
    else if |parts| == 1 then parts[0]
    else parts[0] + sep + Join(sep, parts[1..])
  }

  /** Where a Python slice bound `k` (possibly negative) falls in a sequence of length `n`. */
  function SliceBound(k: int, n: nat): (b: nat)
    ensures b <= n
    ensures 0 <= k <= n ==> b == k
    ensures k < 0 <= n + k ==> b == n + k
    ensures n <= k ==> b == n
    ensures n + k < 0 ==> b == 0
  {
    if k < 0 then (if n + k < 0 then 0 else n + k)
    else if k < n then k else n
  }

  /** Position of the first `c` in `s`, or `|s|` when there is none. */
  function IndexOf(s: string, c: char): (k: nat)
    ensures k <= |s| && c !in s[..k]
    ensures k < |s| ==> s[k] == c
  {
    if s == [] || s[0] == c then 0 else 1 + IndexOf(s[1..], c)
  }

  /** `s.split(c)` for a one-character separator `c`. */
  function SplitOn(s: string, c: char): (pieces: seq<string>)
    ensures |pieces| >= 1
    ensures forall p :: p in pieces ==> c !in p
    ensures forall p :: p in pieces ==> forall x :: x in p ==> x in s
    decreases |s|
  {
    var k := IndexOf(s, c);
    if k == |s| then [s]
    else
      var rest := SplitOn(s[k + 1..], c);
      assert forall p :: p in rest ==> forall x :: x in p ==> x in s;
      [s[..k]] + rest
  }

  /** `str(n)` for a natural number: decimal digits without leading zeros. */
  function DecimalString(n: nat): (s: string)
    ensures s != [] && forall i :: 0 <= i < |s| ==> '0' <= s[i] <= '9'
    ensures s[0] == '0' <==> n == 0
    ensures |s| > 1 ==> s[0] != '0'
  {
    if n < 10 then [DigitChar(n)] else DecimalString(n / 10) + [DigitChar(n % 10)]
  }

  function DigitChar(d: nat): (c: char)
    requires d < 10
    ensures '0' <= c <= '9' && c as int - '0' as int == d
  {
    ('0' as int + d) as char
  }

  /** `int(s)` for a string of decimal digits. */
  function DecimalValue(s: string): nat
    requires forall i :: 0 <= i < |s| ==> '0' <= s[i] <= '9'
  {
    if s == [] then 0 else 10 * DecimalValue(s[..|s| - 1]) + (s[|s| - 1] as int - '0' as int)
  }

  /** Reading back `str(n)` gives `n`. */
  lemma {:induction false} DecimalRoundTrip(n: nat)
    ensures DecimalValue(DecimalString(n)) == n
  {
    if n >= 10 {
      var s := DecimalString(n);
      assert s[..|s| - 1] == DecimalString(n / 10);
      DecimalRoundTrip(n / 10);
    }
  }

  /** `str` is injective on naturals. */
  lemma DecimalStringInjective(m: nat, n: nat)
    requires DecimalString(m) == DecimalString(n)
    ensures m == n
  {
    DecimalRoundTrip(m);
    DecimalRoundTrip(n);
  }

  /** Joining the pieces of `s.split(c)` with `c` gives back `s`. */
  lemma {:induction false} SplitOnJoin(s: string, c: char)
    ensures Join([c], SplitOn(s, c)) == s
    decreases |s|
  {
    var k := IndexOf(s, c);
    if k < |s| {
      var rest := SplitOn(s[k + 1..], c);
      SplitOnJoin(s[k + 1..], c);
      assert ([s[..k]] + rest)[1..] == rest;
      assert s == s[..k] + [c] + s[k + 1..];
    }
  }

  /** Whitespace in front of a string does not change its words. */
  lemma WordsSkipSpace(c: char, s: string)
    requires IsSpace(c)
    ensures Words([c] + s) == Words(s)
  {
    assert ([c] + s)[1..] == s;
  }

  /** A word followed by nothing or by whitespace ends where the word ends. */
  lemma {:induction false} WordEndOfWord(w: string, rest: string)
    requires NoSpace(w)
    requires rest == [] || IsSpace(rest[0])
    ensures WordEnd(w + rest) == |w|
  {
    if w != [] {
      assert (w + rest)[0] == w[0];
      assert (w + rest)[1..] == w[1..] + rest;
      WordEndOfWord(w[1..], rest);
    } else {
      assert w + rest == rest;
    }
  }

  /** A leading word followed by nothing or by whitespace is the first word. */
  lemma WordsConsWord(w: string, rest: string)
    requires w != [] && NoSpace(w)
    requires rest == [] || IsSpace(rest[0])
    ensures Words(w + rest) == [w] + Words(rest)
  {
    var s := w + rest;
    assert s[0] == w[0];
    assert TrimLeft(s) == s;
    WordEndOfWord(w, rest);
    assert s[..|w|] == w;
    assert s[|w|..] == rest;
  }

  /** `" ".join(ws).split() == ws` when every `w` is a non-empty, whitespace-free word. */
  lemma {:induction false} WordsOfJoin(ws: seq<string>)
    requires forall w :: w in ws ==> w != [] && NoSpace(w)
    ensures Words(Join(" ", ws)) == ws
  {
    if |ws| == 1 {
      assert ws[0] in ws;
      WordsConsWord(ws[0], []);
      assert ws[0] + [] == ws[0];
    } else if |ws| > 1 {
      assert ws[0] in ws;
      WordsOfJoinCons(ws);
      assert forall v :: v in ws[1..] ==> v in ws;
      WordsOfJoin(ws[1..]);
      HeadTail(ws);
    }
  }

  /** The first word of a space-joined list of words comes off first. */
  lemma WordsOfJoinCons(ws: seq<string>)
    requires |ws| > 1 && ws[0] != [] && NoSpace(ws[0])
    ensures Words(Join(" ", ws)) == [ws[0]] + Words(Join(" ", ws[1..]))
  {
    var w, rest := ws[0], Join(" ", ws[1..]);
    assert Join(" ", ws) == w + " " + rest;
    ConcatAssoc(w, " ", rest);
    WordsConsWord(w, " " + rest);
    WordsSkipSpace(' ', rest);
  }

  /** A blank string has no words, and a string with no words is blank. */
  lemma WordsEmpty(s: string)
    ensures Words(s) == [] <==> AllSpace(s)
  {
    var t := TrimLeft(s);
    if t == [] {
      assert s == s[..|s|];
    } else {
      assert s[|s| - |t|] == t[0];
    }
  }

  /** Joining words with single spaces gives the empty string only for no words. */
  lemma JoinWordsEmpty(ws: seq<string>)
    requires forall w :: w in ws ==> w != []
    ensures Join(" ", ws) == "" <==> ws == []
  {
    if ws != [] {
      assert ws[0] in ws;
    }
  }

  /** Trailing whitespace after a string does not change where its first word ends. */
  lemma {:induction false} WordEndAppendSpace(t: string, sp: string)
    requires AllSpace(sp)
    ensures WordEnd(t + sp) == WordEnd(t)
  {
    if t == [] {
      if sp != [] {
        assert (t + sp)[0] == sp[0];
      }
    } else if !IsSpace(t[0]) {
      SliceOfAppend(t, sp, 1);
      WordEndAppendSpace(t[1..], sp);
    }
  }

  /** Leading-whitespace removal commutes with appending whitespace to a string that is not blank. */
  lemma {:induction false} TrimLeftAppendSpace(s: string, sp: string)
    requires AllSpace(sp)
    ensures TrimLeft(s + sp) == if AllSpace(s) then TrimLeft(sp) else TrimLeft(s) + sp
  {
    if s == [] {
      assert s + sp == sp;
    } else if IsSpace(s[0]) {
      var t := s[1..];
      assert (s + sp)[0] == s[0];
      SliceOfAppend(s, sp, 1);
      assert TrimLeft(s + sp) == TrimLeft(t + sp);
      assert TrimLeft(s) == TrimLeft(t);
      TrimLeftAppendSpace(t, sp);
      AllSpaceCons(s);
    } else {
      assert (s + sp)[0] == s[0];
      assert TrimLeft(s + sp) == s + sp;
      assert !AllSpace(s);
    }
  }

  /** A string that starts with whitespace is blank exactly when its tail is. */
  lemma AllSpaceCons(s: string)
    requires s != [] && IsSpace(s[0])
    ensures AllSpace(s) <==> AllSpace(s[1..])
  {
    if AllSpace(s[1..]) {
      forall i | 1 <= i < |s| ensures IsSpace(s[i]) {
        assert s[i] == s[1..][i - 1];
      }
    }
  }

  lemma AllSpaceTrimLeft(sp: string)
    requires AllSpace(sp)
    ensures TrimLeft(sp) == []
  {
    WordsEmpty(sp);
  }

  /** One step of `split()`: the first word, then the words of what follows it. */
  lemma WordsStep(s: string)
    requires TrimLeft(s) != []
    ensures var t := TrimLeft(s);
      Words(s) == [t[..WordEnd(t)]] + Words(t[WordEnd(t)..])
  {
  }

  /** Trailing whitespace does not change the words of a string. */
  lemma {:induction false} WordsAppendSpace(s: string, sp: string)
    requires AllSpace(sp)
    ensures Words(s + sp) == Words(s)
    decreases |s|
  {
    TrimLeftAppendSpace(s, sp);
    WordsEmpty(s);
    if AllSpace(s) {
      AllSpaceTrimLeft(sp);
    } else {
      var t := TrimLeft(s);
      var n := WordEnd(t);
      var a, b := (t + sp)[..n], (t + sp)[n..];
      assert TrimLeft(s + sp) == t + sp;
      WordEndAppendSpace(t, sp);
      WordsStep(s + sp);
      assert Words(s + sp) == [a] + Words(b);
      SliceOfAppend(t, sp, n);
      WordsAppendSpace(t[n..], sp);
      WordsStep(s);
    }
  }

  /** `s.strip().split() == s.split()` */
  lemma WordsOfStrip(s: string)
    ensures Words(Strip(s)) == Words(s)
  {
    WordsOfTrimLeft(s);
    WordsOfTrimRight(TrimLeft(s));
  }

  /** `s.rstrip().split() == s.split()` */
  lemma WordsOfTrimRight(s: string)
    ensures Words(TrimRight(s)) == Words(s)
  {
    var r := TrimRight(s);
    var tail := s[|r|..];
    assert r + tail == s;
    WordsAppendSpace(r, tail);
  }

  /** `s.lstrip().split() == s.split()` */
  lemma WordsOfTrimLeft(s: string)
    ensures Words(TrimLeft(s)) == Words(s)
  {
    var l := TrimLeft(s);
    assert TrimLeft(l) == l;
  }

  /** Words separated by one space: the words of both sides, in order. */
  lemma WordsAroundSpace(a: string, b: string)
    ensures Words(a + " " + b) == Words(a) + Words(b)
  {
    ConcatAssoc(a, " ", b);
    WordsAroundSpaceRight(a, b);
  }

  /** `WordsAroundSpace`, with the space attached to the right-hand side. */
  lemma {:induction false} WordsAroundSpaceRight(a: string, b: string)
    ensures Words(a + (" " + b)) == Words(a) + Words(b)
    decreases |a|
  {
    var sb := " " + b;
    var s := a + sb;
    WordsEmpty(a);
    if AllSpace(a) {
      TrimLeftOfBlankPrefix(a, sb);
      assert sb == [' '] + b;
      WordsSkipSpace(' ', b);
      assert Words(s) == Words(b);
      ConcatEmptyLeft(Words(b));
    } else {
      var t := TrimLeft(a);
      var n := WordEnd(t);
      TrimLeftKeepsTail(a, sb);
      WordEndBeforeSpace(t, b);
      WordsStep(s);
      SliceOfAppend(t, sb, n);
      WordsAroundSpaceRight(t[n..], b);
      WordsStep(a);
      var w, ws, wb := t[..n], Words(t[n..]), Words(b);
      calc {
        Words(s);
        [w] + Words(t[n..] + sb);
        [w] + (ws + wb);
        { ConcatAssoc([w], ws, wb); }
        ([w] + ws) + wb;
        Words(a) + wb;
      }
    }
  }

  /** Stripping a blank prefix leaves whatever `s.lstrip()` leaves of the rest. */
  lemma {:induction false} TrimLeftOfBlankPrefix(a: string, b: string)
    requires AllSpace(a)
    ensures TrimLeft(a + b) == TrimLeft(b)
  {
    if a != [] {
      assert (a + b)[0] == a[0];
      SliceOfAppend(a, b, 1);
      TrimLeftOfBlankPrefix(a[1..], b);
    } else {
      assert a + b == b;
    }
  }

  /** Stripping leading whitespace from a string that is not blank leaves what follows intact. */
  lemma {:induction false} TrimLeftKeepsTail(a: string, b: string)
    requires !AllSpace(a)
    ensures TrimLeft(a + b) == TrimLeft(a) + b
  {
    assert a != [];
    assert (a + b)[0] == a[0];
    if IsSpace(a[0]) {
      SliceOfAppend(a, b, 1);
      TrimLeftKeepsTail(a[1..], b);
    }
  }

  /** A word that reaches the end of `t` ends there when a space follows. */
  lemma {:induction false} WordEndBeforeSpace(t: string, b: string)
    ensures WordEnd(t + (" " + b)) == WordEnd(t)
  {
    if t == [] {
      assert t + (" " + b) == " " + b;
    } else {
      assert (t + (" " + b))[0] == t[0];
      if !IsSpace(t[0]) {
        SliceOfAppend(t, " " + b, 1);
        WordEndBeforeSpace(t[1..], b);
      }
    }
  }

  /** Where the `i`-th part starts in `sep.join(parts)`. */
  function JoinOffset(sep: string, parts: seq<string>, i: nat): nat
    requires i < |parts|
  {
    if i == 0 then 0 else |parts[0]| + |sep| + JoinOffset(sep, parts[1..], i - 1)
  }

  /** Each part appears verbatim in the joined string, at its offset. */
  lemma {:induction false} JoinHasPart(sep: string, parts: seq<string>, i: nat)
    requires i < |parts|
    ensures JoinOffset(sep, parts, i) + |parts[i]| <= |Join(sep, parts)|
    ensures Join(sep, parts)[JoinOffset(sep, parts, i)..JoinOffset(sep, parts, i) + |parts[i]|] == parts[i]
  {
    if i > 0 {
      var tail := parts[1..];
      var head := parts[0] + sep;
      var rest := Join(sep, tail);
      var k := JoinOffset(sep, tail, i - 1);
      JoinHasPart(sep, tail, i - 1);
      JoinCons(sep, parts);
      assert JoinOffset(sep, parts, i) == |head| + k;
      assert tail[i - 1] == parts[i];
      SliceOfAppendRight(head, rest, k, k + |parts[i]|);
    }
  }

  /** The joined string ends with its last part: nothing follows it. */
  lemma {:induction false} JoinLength(sep: string, parts: seq<string>)
    requires parts != []
    ensures |Join(sep, parts)| == JoinOffset(sep, parts, |parts| - 1) + |parts[|parts| - 1]|
  {
    if |parts| > 1 {
      JoinLength(sep, parts[1..]);
    }
  }

  /** Between a part and the next one, the joined string holds exactly the separator. */
  lemma {:induction false} JoinSeparatorAt(sep: string, parts: seq<string>, i: nat)
    requires i + 1 < |parts|
    ensures JoinOffset(sep, parts, i + 1) == JoinOffset(sep, parts, i) + |parts[i]| + |sep|
    ensures JoinOffset(sep, parts, i + 1) <= |Join(sep, parts)|
    ensures Join(sep, parts)[JoinOffset(sep, parts, i) + |parts[i]|..JoinOffset(sep, parts, i + 1)] == sep
  {
    var rest := Join(sep, parts[1..]);
    JoinCons(sep, parts);
    if i == 0 {
      ConcatAssoc(parts[0], sep, rest);
      SliceOfAppendRight(parts[0], sep + rest, 0, |sep|);
    } else {
      var tail := parts[1..];
      var head := parts[0] + sep;
      var k := JoinOffset(sep, tail, i - 1) + |parts[i]|;
      JoinSeparatorAt(sep, tail, i - 1);
      assert tail[i - 1] == parts[i];
      SliceOfAppendRight(head, rest, k, k + |sep|);
    }
  }

  /** `sep.join([p] + ps) == p + sep + sep.join(ps)` when `ps` is not empty. */
  lemma JoinCons(sep: string, parts: seq<string>)
    requires |parts| > 1
    ensures Join(sep, parts) == (parts[0] + sep) + Join(sep, parts[1..])
  {
  }

  /** Later parts start later: the joined string keeps the parts' order. */
  lemma {:induction false} JoinOffsetIncreasing(sep: string, parts: seq<string>, i: nat, j: nat)
    requires i < j < |parts|
    ensures JoinOffset(sep, parts, i) + |parts[i]| + |sep| <= JoinOffset(sep, parts, j)
  {
    if i > 0 {
      JoinOffsetIncreasing(sep, parts[1..], i - 1, j - 1);
    }
  }

  /** The words of every part, part after part. */
  function AllWords(parts: seq<string>): seq<string>
  {
    if parts == [] then [] else Words(parts[0]) + AllWords(parts[1..])
  }

  /** Adding a part at the end adds its words at the end. */
  lemma {:induction false} AllWordsSnoc(parts: seq<string>, last: string)
    ensures AllWords(parts + [last]) == AllWords(parts) + Words(last)
  {
    if parts == [] {
      assert [last][1..] == [];
      assert Words(last) + [] == Words(last);
      ConcatEmptyLeft(Words(last));
    } else {
      assert (parts + [last])[1..] == parts[1..] + [last];
      AllWordsSnoc(parts[1..], last);
      ConcatAssoc(Words(parts[0]), AllWords(parts[1..]), Words(last));
    }
  }
}
