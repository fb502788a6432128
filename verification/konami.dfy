/** The key-sequence detector: a buffer of recent key codes, kept in place by
    Array.prototype.push followed by Array.prototype.splice, and a trigger that
    looks for the digits of the code sequence inside the digits of the buffer. */
module Konami {

  const KonamiCode: seq<nat> := [38, 38, 40, 40, 37, 39, 37, 39, 66, 65]

  // ------------------------------------------------------------ Array.splice

  /** The actual start of splice: a negative start counts from the end (but not
      before 0), a start beyond the end is the end. */
  function SpliceStart(len: nat, start: int): (s: nat)
    ensures s <= len
    ensures start < 0 ==> s == (if len + start < 0 then 0 else len + start)
    ensures 0 <= start ==> s == (if start > len then len else start)
  {
    if start < 0 then (if len + start < 0 then 0 else len + start)
    else if start > len then len
    else start
  }

  /** The actual delete count of splice: a negative count is 0, and no more than
      what lies after the start. */
  function SpliceCount(len: nat, start: nat, deleteCount: int): (d: nat)
    requires start <= len
    ensures start + d <= len
    ensures d == (if deleteCount < 0 then 0 else if deleteCount > len - start then len - start else deleteCount)
  {
    if deleteCount < 0 then 0
    else if deleteCount > len - start then len - start
    else deleteCount
  }

  /** The array left behind by a.splice(start, deleteCount): the elements before
      the actual start, then those after the deleted run. */
  function Splice<T>(a: seq<T>, start: int, deleteCount: int): (r: seq<T>)
    ensures var s := SpliceStart(|a|, start);
      var d := SpliceCount(|a|, s, deleteCount);
      && |r| == |a| - d
      && r[..s] == a[..s]
      && r[s..] == a[s + d..]
  {
    var s := SpliceStart(|a|, start);
    var d := SpliceCount(|a|, s, deleteCount);
    a[..s] + a[s + d..]
  }

  /** The last n elements of s (all of s when it is shorter). */
  function LastN<T>(s: seq<T>, n: nat): (r: seq<T>)
    ensures |r| == (if |s| <= n then |s| else n)
    ensures forall i :: 0 <= i < |r| ==> r[i] == s[|s| - |r| + i]
  {
    if |s| <= n then s else s[|s| - n..]
  }

  /** The update of the handler, push then splice(-11, len - 10), keeps exactly the
      last ten codes, provided the buffer held at most ten before the push. */
  lemma SpliceKeepsLastTen(buffer: seq<nat>, keyCode: nat)
    requires |buffer| <= |KonamiCode|
    ensures var pushed := buffer + [keyCode];
      Splice(pushed, -|KonamiCode| - 1, |pushed| - |KonamiCode|) == LastN(pushed, |KonamiCode|)
  {
    var pushed := buffer + [keyCode];
    var s := SpliceStart(|pushed|, -|KonamiCode| - 1);
    var d := SpliceCount(|pushed|, s, |pushed| - |KonamiCode|);
    assert s == 0;
    if |pushed| <= |KonamiCode| {
      assert d == 0;
      assert pushed[0..] == pushed;
    } else {
      assert d == 1;
    }
  }

  /** The same splice on a longer buffer does not keep the last ten: with fifteen
      codes it cuts a run out of the middle instead, so the bound of ten matters. */
  lemma SpliceOnLongBufferCutsMiddle()
    ensures var long := [0, 1, 2, 3, 4, 5, 6, 7, 8, 9, 10, 11, 12, 13, 14];
      Splice(long, -|KonamiCode| - 1, |long| - |KonamiCode|) == [0, 1, 2, 3, 9, 10, 11, 12, 13, 14]
      && LastN(long, |KonamiCode|) == [5, 6, 7, 8, 9, 10, 11, 12, 13, 14]
  {
    var long := [0, 1, 2, 3, 4, 5, 6, 7, 8, 9, 10, 11, 12, 13, 14];
    assert SpliceStart(15, -11) == 4;
    assert SpliceCount(15, 4, 5) == 5;
    assert long[..4] == [0, 1, 2, 3];
    assert long[9..] == [9, 10, 11, 12, 13, 14];
    assert long[5..] == [5, 6, 7, 8, 9, 10, 11, 12, 13, 14];
  }

  /** Keeping the last ten of a longer history one key at a time is the same as
      keeping the last ten of the whole history. */
  lemma LastNOfPush(history: seq<nat>, keyCode: nat)
    ensures LastN(LastN(history, |KonamiCode|) + [keyCode], |KonamiCode|) == LastN(history + [keyCode], |KonamiCode|)
  {
    var n := |KonamiCode|;
    if |history| > n {
      assert history[|history| - n..][1..] + [keyCode] == (history + [keyCode])[|history| + 1 - n..];
    }
  }

  /** One keydown on a buffer holding the last ten codes of a history leaves the
      last ten codes of the history extended by the new code. */
  lemma PushSpliceKeepsLastTen(history: seq<nat>, keyCode: nat)
    ensures var pushed := LastN(history, |KonamiCode|) + [keyCode];
      Splice(pushed, -|KonamiCode| - 1, |pushed| - |KonamiCode|) == LastN(history + [keyCode], |KonamiCode|)
  {
    LastNOfPush(history, keyCode);
    SpliceKeepsLastTen(LastN(history, |KonamiCode|), keyCode);
  }

  // ------------------------------------------------- join('') and indexOf

  function DigitChar(d: nat): (c: char)
    requires d < 10
    ensures '0' <= c <= '9' && c as int - '0' as int == d
  {
    "0123456789"[d]
  }

  /** The decimal text of a key code, as a number is converted by join(''). */
  function NumberToString(n: nat): (s: string)
    ensures |s| >= 1
    ensures forall i :: 0 <= i < |s| ==> '0' <= s[i] <= '9'
    ensures n < 10 ==> |s| == 1
    ensures |s| > 1 ==> s[0] != '0'
    decreases n
  {
    if n < 10 then [DigitChar(n)] else NumberToString(n / 10) + [DigitChar(n % 10)]
  }

  /** The number a string of decimal digits stands for. */
  function DecimalValue(s: string): (v: nat)
    requires forall i :: 0 <= i < |s| ==> '0' <= s[i] <= '9'
    decreases |s|
  {
    if s == [] then 0 else 10 * DecimalValue(s[..|s| - 1]) + (s[|s| - 1] as int - '0' as int)
  }

  /** The decimal text reads back as the same number. */
  lemma {:induction false} NumberToStringRoundTrip(n: nat)
    ensures DecimalValue(NumberToString(n)) == n
    decreases n
  {
    var s := NumberToString(n);
    if n >= 10 {
      NumberToStringRoundTrip(n / 10);
      assert s[..|s| - 1] == NumberToString(n / 10);
    }
  }

  /** konami.join(''): the decimal texts of the codes, one after another. */
  function Join(codes: seq<nat>): string
    decreases |codes|
  {
    if codes == [] then "" else NumberToString(codes[0]) + Join(codes[1..])
  }

  lemma OccursAfterPrefix(prefix: string, t: string)
    ensures OccursAt(prefix + t, t, |prefix|)
  {
    assert (prefix + t)[|prefix|..|prefix| + |t|] == t;
  }

  /** Joining two buffers one after the other is joining their concatenation. */
  lemma {:induction false} JoinAppend(a: seq<nat>, b: seq<nat>)
    ensures Join(a + b) == Join(a) + Join(b)
    decreases |a|
  {
    if a == [] {
      assert a + b == b;
    } else {
      assert (a + b)[1..] == a[1..] + b;
      JoinAppend(a[1..], b);
    }
  }

  lemma JoinCons(x: nat, xs: seq<nat>)
    ensures Join([x] + xs) == NumberToString(x) + Join(xs)
  {
    JoinAppend([x], xs);
    assert Join([x]) == NumberToString(x) + Join([]);
  }

  predicate OccursAt(s: string, t: string, i: int) {
    0 <= i && i + |t| <= |s| && s[i..i + |t|] == t
  }

  /** The search of String.prototype.indexOf from a position inside the string:
      the first index at or after `from` at which t occurs, or -1 when it occurs
      nowhere there. */
  function IndexOfFrom(s: string, t: string, from: nat): (r: int)
    requires from <= |s|
    ensures r == -1 || (from <= r && OccursAt(s, t, r))
    ensures r == -1 ==> forall j :: from <= j ==> !OccursAt(s, t, j)
    ensures r != -1 ==> forall j :: from <= j < r ==> !OccursAt(s, t, j)
    decreases |s| - from
  {
    if from + |t| > |s| then -1
    else if s[from..from + |t|] == t then from
    else IndexOfFrom(s, t, from + 1)
  }

  function IndexOf(s: string, t: string): (r: int)
    ensures r >= 0 <==> exists j :: OccursAt(s, t, j)
  {
    IndexOfFrom(s, t, 0)
  }

  /** The trigger condition of the handler. */
  predicate Triggered(konami: seq<nat>) {
    IndexOf(Join(konami), Join(KonamiCode)) >= 0
  }

  /** When the last ten keys are the code, the buffer is the code and the trigger fires. */
  lemma LastTenKonamiTriggers(history: seq<nat>)
    requires |history| >= |KonamiCode| && history[|history| - |KonamiCode|..] == KonamiCode
    ensures LastN(history, |KonamiCode|) == KonamiCode
    ensures Triggered(LastN(history, |KonamiCode|))
  {
    assert OccursAt(Join(KonamiCode), Join(KonamiCode), 0);
  }

  /** A first code whose text is some digits followed by the text of the code's
      first element, then the rest of the code, contains the code's digits. */
  lemma {:induction false} PrefixedFirstCodeOccurs(first: nat, prefix: string, code: seq<nat>)
    requires |code| >= 1 && NumberToString(first) == prefix + NumberToString(code[0])
    ensures OccursAt(Join([first] + code[1..]), Join(code), |prefix|)
  {
    var j := Join(code);
    JoinCons(first, code[1..]);
    assert j == NumberToString(code[0]) + Join(code[1..]);
    assert Join([first] + code[1..]) == prefix + j;
    OccursAfterPrefix(prefix, j);
  }

  /** Digit containment is looser than equality: a buffer whose first code is 138
      instead of 38 (and whose other nine codes are the code's last nine) fires too,
      because "138" ends with "38". */
  lemma LooseTrigger()
    ensures [138] + KonamiCode[1..] != KonamiCode
    ensures Triggered([138] + KonamiCode[1..])
  {
    assert ([138] + KonamiCode[1..])[0] == 138;
    assert NumberToString(13) == NumberToString(1) + [DigitChar(3)];
    assert NumberToString(138) == NumberToString(13) + [DigitChar(8)];
    assert NumberToString(38) == NumberToString(3) + [DigitChar(8)];
    assert NumberToString(138) == "1" + NumberToString(38);
    PrefixedFirstCodeOccurs(138, "1", KonamiCode);
  }

  // ------------------------------------------------------------ the handler

  /** The module-level `konami` array and the keydown handler that updates it. */
  class KonamiBuffer {
    var konami: seq<nat>
    ghost var history: seq<nat>  // every key code seen so far

    ghost predicate Valid()
      reads this
    {
      konami == LastN(history, |KonamiCode|)
    }

    constructor ()
      ensures Valid() && konami == [] && history == []
    {
      konami := [];
      history := [];
    }

    /** One keydown: push the code, splice the buffer back to ten, test the trigger. */
    method KeyDown(keyCode: nat) returns (activated: bool)
      requires Valid()
      modifies this
      ensures Valid() && history == old(history) + [keyCode]
      ensures konami == LastN(old(history) + [keyCode], |KonamiCode|)
      ensures |konami| <= |KonamiCode|
      ensures activated <==> Triggered(konami)
    {
      PushSpliceKeepsLastTen(history, keyCode);
      konami := konami + [keyCode];
      konami := Splice(konami, -|KonamiCode| - 1, |konami| - |KonamiCode|);
      history := history + [keyCode];
      activated := IndexOf(Join(konami), Join(KonamiCode)) >= 0;
    }
  }
}
