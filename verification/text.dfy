/** The pieces of `java.lang.String` the modelled code relies on, for literal
    patterns only: `startsWith`, `endsWith`, `contains`, `replaceAll` with a
    quoted or metacharacter-free pattern, `split` on a quoted separator, and
    `toLowerCase` restricted to ASCII letters. */
module Text {

  /** `p` occurs in `s` starting at index `k`. */
  predicate OccursAt(s: string, p: string, k: int) {
    0 <= k && k + |p| <= |s| && s[k..k + |p|] == p
  }

  /** `String.startsWith`, comparing one character at a time. */
  function StartsWith(s: string, p: string): (r: bool)
    ensures r <==> |p| <= |s| && s[..|p|] == p
  {
    if |p| == 0 then true
    else if |s| == 0 || s[0] != p[0] then false
    else
      assert |p| <= |s| ==> s[..|p|] == [s[0]] + s[1..][..|p| - 1];
      assert p == [p[0]] + p[1..];
      StartsWith(s[1..], p[1..])
  }

  predicate EndsWith(s: string, suffix: string) {
    |suffix| <= |s| && s[|s| - |suffix|..] == suffix
  }

  /** `String.contains`, scanning left to right. */
  function Contains(s: string, p: string): (r: bool)
    ensures r <==> exists k :: OccursAt(s, p, k)
    decreases |s|
  {
    if StartsWith(s, p) then
      assert OccursAt(s, p, 0);
      true
    else if |s| == 0 then
      false
    else
      ShiftOccurrence(s, p);
      Contains(s[1..], p)
  }

  /** An occurrence in the tail of `s` is an occurrence in `s` one place on,
      and every occurrence in `s` past index 0 is one in its tail. */
  lemma ShiftOccurrence(s: string, p: string)
    requires |s| > 0
    ensures forall k :: OccursAt(s[1..], p, k) ==> OccursAt(s, p, k + 1)
    ensures forall k :: k > 0 && OccursAt(s, p, k) ==> OccursAt(s[1..], p, k - 1)
  {
    forall k | OccursAt(s[1..], p, k) ensures OccursAt(s, p, k + 1) {
      assert s[1..][k..k + |p|] == s[k + 1..k + 1 + |p|];
    }
    forall k | k > 0 && OccursAt(s, p, k) ensures OccursAt(s[1..], p, k - 1) {
      assert s[1..][k - 1..k - 1 + |p|] == s[k..k + |p|];
    }
  }

  /** A one-character pattern occurs exactly when the character does. */
  lemma ContainsChar(s: string, c: char)
    ensures Contains(s, [c]) <==> c in s
  {
    if c in s {
      var k :| 0 <= k < |s| && s[k] == c;
      assert OccursAt(s, [c], k);
    }
    if Contains(s, [c]) {
      var k :| OccursAt(s, [c], k);
      assert s[k] == s[k..k + 1][0];
    }
  }

  /** `String.replaceAll(p, r)` for a pattern with no regular-expression
      metacharacters (or one wrapped in `Pattern.quote`): scan left to right,
      replacing each occurrence that does not overlap an earlier replaced one.
      The result takes its characters from `s` and `r` only, and is `s` itself
      when `p` does not occur in it. */
  function ReplaceAll(s: string, p: string, r: string): (t: string)
    requires |p| > 0
    ensures forall c :: c in t ==> c in s || c in r
    ensures !Contains(s, p) ==> t == s
    decreases |s|
  {
    if |s| == 0 then
      []
    else if StartsWith(s, p) then
      assert forall c :: c in s[|p|..] ==> c in s;
      r + ReplaceAll(s[|p|..], p, r)
    else
      assert forall c :: c in s[1..] ==> c in s;
      assert s == [s[0]] + s[1..];
      [s[0]] + ReplaceAll(s[1..], p, r)
  }

  /** `replaceAll` replaces the leftmost occurrence first: when `p` first
      occurs at `k`, everything before `k` is kept, that occurrence becomes
      `r`, and the scan resumes right after it. */
  lemma ReplaceLeftmost(s: string, p: string, r: string, k: nat)
    requires |p| > 0 && OccursAt(s, p, k)
    requires forall j :: 0 <= j < k ==> !OccursAt(s, p, j)
    ensures ReplaceAll(s, p, r) == s[..k] + r + ReplaceAll(s[k + |p|..], p, r)
  {
    CutAround(s, p, k);
    ReplacePastPrefix(s[..k], p, r, s[k + |p|..]);
  }

  /** `ReplaceLeftmost` with the string cut into the part before the first
      occurrence, the occurrence, and the rest. */
  lemma {:induction false} ReplacePastPrefix(pre: string, p: string, r: string, rest: string)
    requires |p| > 0
    requires forall j :: 0 <= j < |pre| ==> !OccursAt(pre + p + rest, p, j)
    ensures ReplaceAll(pre + p + rest, p, r) == pre + r + ReplaceAll(rest, p, r)
    decreases |pre|
  {
    var whole := pre + p + rest;
    if |pre| == 0 {
      EmptyPrefix(pre, p, rest);
      ReplaceAtStart(whole, p, r);
    } else {
      var tail := pre[1..] + p + rest;
      DropHead(pre, p, rest);
      assert !StartsWith(whole, p) by {
        assert !OccursAt(whole, p, 0);
      }
      ReplaceSkips(whole, p, r);
      ShiftOccurrence(whole, p);
      forall j | 0 <= j < |pre| - 1
        ensures !OccursAt(tail, p, j)
      {
        assert !OccursAt(whole, p, j + 1);
      }
      ReplacePastPrefix(pre[1..], p, r, rest);
      Chain(ReplaceAll(whole, p, r), ReplaceAll(tail, p, r), pre, pre[1..], r,
            ReplaceAll(rest, p, r), pre[0]);
    }
  }

  /** An occurrence at `k` cuts `s` into the part before, `p`, and the rest. */
  lemma CutAround(s: string, p: string, k: nat)
    requires OccursAt(s, p, k)
    ensures s == s[..k] + p + s[k + |p|..]
  {
  }

  lemma EmptyPrefix(pre: string, p: string, rest: string)
    requires |pre| == 0
    ensures pre + p + rest == p + rest
    ensures OccursAt(p + rest, p, 0) && (p + rest)[|p|..] == rest
  {
    assert (p + rest)[0..|p|] == p;
  }

  lemma DropHead(pre: string, p: string, rest: string)
    requires |pre| > 0
    ensures (pre + p + rest)[1..] == pre[1..] + p + rest
    ensures (pre + p + rest)[0] == pre[0] && pre == [pre[0]] + pre[1..]
  {
  }

  /** Two equations about a first character and a tail combine into one. */
  lemma Chain(whole: string, tail: string, front: string, tailFront: string, r: string,
              rest: string, c: char)
    requires whole == [c] + tail
    requires tail == tailFront + r + rest
    requires front == [c] + tailFront
    ensures whole == front + r + rest
  {
    Regroup([c], tailFront, r, rest);
  }

  /** Where `p` starts, it is replaced. */
  lemma ReplaceAtStart(s: string, p: string, r: string)
    requires |p| > 0 && OccursAt(s, p, 0)
    ensures ReplaceAll(s, p, r) == r + ReplaceAll(s[|p|..], p, r)
  {
    assert |s| > 0 && StartsWith(s, p);
  }

  /** Where `p` does not start, the first character is kept. */
  lemma ReplaceSkips(s: string, p: string, r: string)
    requires |p| > 0 && |s| > 0 && !StartsWith(s, p)
    ensures ReplaceAll(s, p, r) == [s[0]] + ReplaceAll(s[1..], p, r)
  {
  }

  lemma Regroup(a: string, b: string, c: string, d: string)
    ensures a + (b + c + d) == (a + b) + c + d
  {
  }

  /** Removing every occurrence of `p` from `x + p`, where the first character
      of `p` is not in `x`, leaves `x`. */
  lemma RemoveTrailingPattern(x: string, p: string)
    requires |p| > 0 && p[0] !in x
    ensures ReplaceAll(x + p, p, "") == x
  {
    if |x| == 0 {
      assert StartsWith(p, p);
      assert p[|p|..] == [];
    } else {
      assert (x + p)[0] == x[0] != p[0];
      assert (x + p)[1..] == x[1..] + p;
      RemoveTrailingPattern(x[1..], p);
    }
  }

  /** The fields of `s` between non-overlapping occurrences of `sep`, found
      left to right; `cur` is the field read so far. Every separator starts a
      new field, so `s` with `k` separators has `k + 1` fields. */
  function SplitFrom(s: string, sep: string, cur: string): (fields: seq<string>)
    requires |sep| > 0
    ensures |fields| > 0
    decreases |s|
  {
    if |s| == 0 then
      [cur]
    else if StartsWith(s, sep) then
      [cur] + SplitFrom(s[|sep|..], sep, [])
    else
      SplitFrom(s[1..], sep, cur + [s[0]])
  }

  function Split(s: string, sep: string): (fields: seq<string>)
    requires |sep| > 0
    ensures |fields| > 0
  {
    SplitFrom(s, sep, [])
  }

  /** The fields joined back with `sep` between consecutive ones. */
  function Join(fields: seq<string>, sep: string): string
    requires |fields| > 0
  {
    if |fields| == 1 then fields[0] else fields[0] + sep + Join(fields[1..], sep)
  }

  /** Splitting on a separator and joining with the same separator gives the
      input back. */
  lemma {:induction false} SplitJoin(s: string, sep: string, cur: string)
    requires |sep| > 0
    ensures Join(SplitFrom(s, sep, cur), sep) == cur + s
    decreases |s|
  {
    if |s| == 0 {
    } else if StartsWith(s, sep) {
      SplitJoin(s[|sep|..], sep, []);
      assert s == sep + s[|sep|..];
    } else {
      SplitJoin(s[1..], sep, cur + [s[0]]);
      assert cur + s == cur + [s[0]] + s[1..];
    }
  }

  /** `replaceAll(p, r)` is splitting on `p` and joining with `r`. */
  lemma {:induction false} ReplaceIsSplitJoin(s: string, p: string, r: string, cur: string)
    requires |p| > 0
    ensures Join(SplitFrom(s, p, cur), r) == cur + ReplaceAll(s, p, r)
    decreases |s|
  {
    if |s| == 0 {
    } else if StartsWith(s, p) {
      ReplaceIsSplitJoin(s[|p|..], p, r, []);
    } else {
      ReplaceIsSplitJoin(s[1..], p, r, cur + [s[0]]);
      assert cur + ([s[0]] + ReplaceAll(s[1..], p, r)) == cur + [s[0]] + ReplaceAll(s[1..], p, r);
    }
  }

  /** Replacing a pattern by itself changes nothing. */
  lemma ReplaceBySelf(s: string, p: string)
    requires |p| > 0
    ensures ReplaceAll(s, p, p) == s
  {
    ReplaceIsSplitJoin(s, p, p, []);
    SplitJoin(s, p, []);
  }

  /** Splitting on a one-character separator: no field holds the separator. */
  lemma {:induction false} SplitFieldsFree(s: string, c: char, cur: string)
    requires c !in cur
    ensures forall i :: 0 <= i < |SplitFrom(s, [c], cur)| ==> c !in SplitFrom(s, [c], cur)[i]
    decreases |s|
  {
    if |s| == 0 {
    } else if StartsWith(s, [c]) {
      SplitFieldsFree(s[1..], c, []);
    } else {
      assert s[0] != c;
      SplitFieldsFree(s[1..], c, cur + [s[0]]);
    }
  }

  /** Splitting `a + sep + b` on a one-character separator that occurs in
      neither part gives exactly the two parts. */
  lemma {:induction false} SplitTwoFields(a: string, b: string, c: char, cur: string)
    requires c !in a && c !in b
    ensures SplitFrom(a + [c] + b, [c], cur) == [cur + a, b]
    decreases |a|
  {
    if |a| == 0 {
      assert cur + a == cur;
      assert a + [c] + b == [c] + b;
      assert StartsWith([c] + b, [c]);
      assert ([c] + b)[1..] == b;
      SplitNoSeparator(b, c, []);
      assert [] + b == b;
      assert SplitFrom([c] + b, [c], cur) == [cur] + SplitFrom(b, [c], []);
    } else {
      assert (a + [c] + b)[0] == a[0];
      assert (a + [c] + b)[1..] == a[1..] + [c] + b;
      SplitTwoFields(a[1..], b, c, cur + [a[0]]);
      assert cur + [a[0]] + a[1..] == cur + a;
    }
  }

  /** A string without the one-character separator is a single field. */
  lemma {:induction false} SplitNoSeparator(s: string, c: char, cur: string)
    requires c !in s
    ensures SplitFrom(s, [c], cur) == [cur + s]
    decreases |s|
  {
    if |s| == 0 {
      assert cur + s == cur;
    } else {
      assert s[0] != c;
      SplitNoSeparator(s[1..], c, cur + [s[0]]);
      assert cur + [s[0]] + s[1..] == cur + s;
    }
  }

  /** Drop the empty fields at the end of the list, as `split` with limit 0
      does. The result is a prefix of the fields, it does not end in an empty
      field, and only empty fields were dropped. */
  function DropTrailingEmpty(fields: seq<string>): (r: seq<string>)
    ensures |r| <= |fields| && r == fields[..|r|]
    ensures |r| > 0 ==> r[|r| - 1] != []
    ensures forall i :: |r| <= i < |fields| ==> fields[i] == []
  {
    if |fields| == 0 then []
    else if fields[|fields| - 1] == [] then DropTrailingEmpty(fields[..|fields| - 1])
    else fields
  }

  /** `n` empty fields. */
  function Empties(n: nat): (fields: seq<string>)
    ensures |fields| == n && forall i :: 0 <= i < n ==> fields[i] == []
  {
    seq(n, i => [])
  }

  /** Java's `String.split(Pattern.quote(sep))`. A string in which the
      separator does not occur is returned whole as the only field, even when
      it is empty. Otherwise the trailing empty fields are dropped, so a last
      field is never empty. A one-character separator occurs in no field.
      Nothing is lost but the dropped empty fields: putting them back and
      joining everything with the separator gives the input. */
  function JavaSplit(s: string, sep: string): (fields: seq<string>)
    requires |sep| > 0
    ensures !Contains(s, sep) ==> fields == [s]
    ensures Contains(s, sep) && |fields| > 0 ==> fields[|fields| - 1] != []
    ensures |sep| == 1 ==> forall i :: 0 <= i < |fields| ==> sep[0] !in fields[i]
    ensures exists n: nat :: |fields| + n > 0 && Join(fields + Empties(n), sep) == s
  {
    assert |sep| == 1 ==> sep == [sep[0]];
    ContainsChar(s, sep[0]);
    SplitFieldsFree(s, sep[0], []);
    if !Contains(s, sep) then
      assert [s] + Empties(0) == [s];
      [s]
    else
      var all := Split(s, sep);
      var kept := DropTrailingEmpty(all);
      SplitJoin(s, sep, []);
      assert kept + Empties(|all| - |kept|) == all;
      kept
  }

  /** The index of the first `c` in `s`, or `|s|` when there is none. */
  function FirstIndex(s: string, c: char): (k: nat)
    ensures k <= |s|
    ensures k < |s| ==> s[k] == c
    ensures forall i :: 0 <= i < k ==> s[i] != c
  {
    if |s| == 0 then 0 else if s[0] == c then 0 else 1 + FirstIndex(s[1..], c)
  }

  /** Splitting on `c` cuts at its first occurrence: the field being read
      ends there, and the remaining fields are those of what follows. */
  lemma {:induction false} SplitAtFirst(s: string, c: char, cur: string)
    requires c in s
    ensures SplitFrom(s, [c], cur)
         == [cur + s[..FirstIndex(s, c)]] + SplitFrom(s[FirstIndex(s, c) + 1..], [c], [])
    decreases |s|
  {
    var f := FirstIndex(s, c);
    if s[0] == c {
      assert f == 0;
      assert StartsWith(s, [c]) by {
        assert s[..1] == [c];
      }
      assert cur + s[..0] == cur;
    } else {
      assert !StartsWith(s, [c]);
      var t := s[1..];
      assert c in t by {
        assert s[f] == c && f > 0;
        assert t[f - 1] == c;
      }
      SplitAtFirst(t, c, cur + [s[0]]);
      assert FirstIndex(t, c) == f - 1;
      assert cur + [s[0]] + t[..f - 1] == cur + s[..f] by {
        assert s[..f] == [s[0]] + t[..f - 1];
      }
      assert t[f - 1 + 1..] == s[f + 1..];
    }
  }

  /** The first field of a split on `c` is everything before the first `c`. */
  lemma FirstField(s: string, c: char, cur: string)
    ensures SplitFrom(s, [c], cur)[0] == cur + s[..FirstIndex(s, c)]
  {
    if c in s {
      SplitAtFirst(s, c, cur);
    } else {
      SplitNoSeparator(s, c, cur);
      assert s[..|s|] == s;
    }
  }

  predicate AllEmpty(fields: seq<string>) {
    forall i :: 0 <= i < |fields| ==> fields[i] == []
  }

  predicate AllChar(s: string, c: char) {
    forall j :: 0 <= j < |s| ==> s[j] == c
  }

  /** Every field of a split is empty exactly when the field being read is
      and the rest of the string is nothing but separators. */
  lemma {:induction false} AllFieldsEmpty(s: string, c: char, cur: string)
    ensures AllEmpty(SplitFrom(s, [c], cur)) <==> cur == [] && AllChar(s, c)
    decreases |s|
  {
    var fields := SplitFrom(s, [c], cur);
    if |s| == 0 {
      assert fields == [cur] && fields[0] == cur;
    } else if s[0] == c {
      assert StartsWith(s, [c]) by {
        assert s[..1] == [c];
      }
      var t := s[1..];
      var rest := SplitFrom(t, [c], []);
      assert fields == [cur] + rest;
      AllFieldsEmpty(t, c, []);
      assert AllEmpty(fields) <==> cur == [] && AllEmpty(rest) by {
        if AllEmpty(fields) {
          assert fields[0] == cur;
          forall i | 0 <= i < |rest| ensures rest[i] == [] {
            assert fields[i + 1] == rest[i];
          }
        }
        if cur == [] && AllEmpty(rest) {
          forall i | 0 <= i < |fields| ensures fields[i] == [] {
            if i > 0 {
              assert fields[i] == rest[i - 1];
            }
          }
        }
      }
      assert AllChar(t, c) <==> AllChar(s, c) by {
        if AllChar(t, c) {
          forall j | 0 <= j < |s| ensures s[j] == c {
            if j > 0 {
              assert s[j] == t[j - 1];
            }
          }
        }
        if AllChar(s, c) {
          forall j | 0 <= j < |t| ensures t[j] == c {
            assert t[j] == s[j + 1];
          }
        }
      }
    } else {
      assert !StartsWith(s, [c]);
      AllFieldsEmpty(s[1..], c, cur + [s[0]]);
      assert (cur + [s[0]])[|cur|] == s[0];
      assert !AllChar(s, c) by {
        assert s[0] != c;
      }
    }
  }

  /** `c` occurs, and somewhere after it a character other than `c`. */
  predicate HasSecondField(s: string, c: char) {
    exists i, j :: 0 <= i < j < |s| && s[i] == c && s[j] != c
  }

  /** `split` on `c` keeps at least two fields exactly when some `c` is
      followed, somewhere later, by a character other than `c`; the first
      two fields are then the text before the first `c` and the text
      between it and the next `c`. */
  lemma JavaSplitFields(s: string, c: char)
    ensures |JavaSplit(s, [c])| >= 2 <==> HasSecondField(s, c)
    ensures |JavaSplit(s, [c])| >= 2 ==>
      var rest := s[FirstIndex(s, c) + 1..];
      JavaSplit(s, [c])[0] == s[..FirstIndex(s, c)] && JavaSplit(s, [c])[1] == rest[..FirstIndex(rest, c)]
  {
    ContainsChar(s, c);
    if c !in s {
      assert JavaSplit(s, [c]) == [s];
      assert !HasSecondField(s, c);
    } else {
      var f := FirstIndex(s, c);
      var rest := s[f + 1..];
      var tail := SplitFrom(rest, [c], []);
      SplitAtFirst(s, c, []);
      assert [] + s[..f] == s[..f];
      var all := [s[..f]] + tail;
      assert Split(s, [c]) == all;
      assert all[1..] == tail;
      KeepsSecondField(all);
      AllFieldsEmpty(rest, c, []);
      SecondFieldAfterFirst(s, c);
      FirstField(rest, c, []);
      assert [] + rest[..FirstIndex(rest, c)] == rest[..FirstIndex(rest, c)];
    }
  }

  /** Dropping trailing empty fields leaves two or more exactly when some
      field past the first is non-empty, and it keeps the first two. */
  lemma KeepsSecondField(all: seq<string>)
    requires |all| >= 1
    ensures |DropTrailingEmpty(all)| >= 2 <==> !AllEmpty(all[1..])
    ensures |DropTrailingEmpty(all)| >= 2 ==> DropTrailingEmpty(all)[..2] == all[..2]
  {
    var kept := DropTrailingEmpty(all);
    if |kept| >= 2 {
      assert all[1..][|kept| - 2] == kept[|kept| - 1] != [];
    }
    if !AllEmpty(all[1..]) {
      var i :| 0 <= i < |all[1..]| && all[1..][i] != [];
      assert all[i + 1] != [];
    }
  }

  /** When `c` occurs, a later character other than `c` is one past the
      first `c`. */
  lemma SecondFieldAfterFirst(s: string, c: char)
    requires c in s
    ensures HasSecondField(s, c) <==> !AllChar(s[FirstIndex(s, c) + 1..], c)
  {
    var f := FirstIndex(s, c);
    var rest := s[f + 1..];
    if HasSecondField(s, c) {
      var i, j :| 0 <= i < j < |s| && s[i] == c && s[j] != c;
      assert i >= f;
      assert rest[j - f - 1] != c;
    }
    if !AllChar(rest, c) {
      var j :| 0 <= j < |rest| && rest[j] != c;
      assert s[f] == c && s[f + 1 + j] != c;
    }
  }

  /** ASCII `Character.toLowerCase`. */
  function LowerChar(c: char): char {
    if 'A' <= c <= 'Z' then (c as int - 'A' as int + 'a' as int) as char else c
  }

  /** `String.toLowerCase` on ASCII letters: same length, each upper-case
      letter replaced by its lower-case form, nothing else changed. */
  function ToLower(s: string): (t: string)
    ensures |t| == |s|
    ensures forall i :: 0 <= i < |s| ==> !('A' <= t[i] <= 'Z')
    ensures forall i :: 0 <= i < |s| ==> t[i] == s[i] || ('A' <= s[i] <= 'Z' && t[i] as int == s[i] as int + 32)
  {
    seq(|s|, i requires 0 <= i < |s| => LowerChar(s[i]))
  }

  /** Lower-casing twice is lower-casing once. */
  lemma ToLowerIdempotent(s: string)
    ensures ToLower(ToLower(s)) == ToLower(s)
  {
  }
}
