/**
 * The `.env` text edits done by the deployment script, on the file contents
 * as one string. The script's regular expressions are unanchored, so a key
 * is matched anywhere in the text, and JavaScript's `.` stops at any line
 * terminator (`\n`, `\r`, U+2028, U+2029).
 */
module EnvText {
  import opened Wrappers

  /** The characters JavaScript's `.` refuses to match. */
  predicate IsLineTerminator(c: char)
  {
    c == '\n' || c == '\r' || c == '\U{2028}' || c == '\U{2029}'
  }

  predicate NoLineTerminator(s: string)
  {
    forall i :: 0 <= i < |s| ==> !IsLineTerminator(s[i])
  }

  /** The keys the script writes: upper-case ASCII letters and underscores. */
  predicate IsEnvKey(k: string)
  {
    |k| > 0 && forall i :: 0 <= i < |k| ==> 'A' <= k[i] <= 'Z' || k[i] == '_'
  }

  predicate OccursAt(s: string, pat: string, i: int)
  {
    0 <= i && i + |pat| <= |s| && s[i..i + |pat|] == pat
  }

  /** `s.includes(pat)`. */
  predicate Contains(s: string, pat: string)
  {
    exists i | 0 <= i <= |s| - |pat| :: OccursAt(s, pat, i)
  }

  /** The first occurrence of `pat` in `s` at or after `from`. */
  function FindFrom(s: string, pat: string, from: nat): (r: Option<nat>)
    decreases |s| - from
    ensures r.Some? ==> from <= r.value && OccursAt(s, pat, r.value)
    ensures forall j :: from <= j && (r.None? || j < r.value) ==> !OccursAt(s, pat, j)
  {
    if from + |pat| > |s| then None
    else if OccursAt(s, pat, from) then Some(from)
    else FindFrom(s, pat, from + 1)
  }

  function IndexOf(s: string, pat: string): Option<nat>
  {
    FindFrom(s, pat, 0)
  }

  /** The end of the line that position `i` lies on: what `.*` from `i` consumes. */
  function LineEnd(s: string, i: nat): (e: nat)
    requires i <= |s|
    decreases |s| - i
    ensures i <= e <= |s|
    ensures e < |s| ==> IsLineTerminator(s[e])
  {
    if i == |s| || IsLineTerminator(s[i]) then i else LineEnd(s, i + 1)
  }

  /** `.*` consumes no line terminator. */
  lemma {:induction false} LineEndClean(s: string, i: nat)
    requires i <= |s|
    ensures forall j :: i <= j < LineEnd(s, i) ==> !IsLineTerminator(s[j])
    decreases |s| - i
  {
    if i < |s| && !IsLineTerminator(s[i]) {
      LineEndClean(s, i + 1);
    }
  }

  /** `s.replace(new RegExp(k + '=.*'), k + '=' + v)`: only the first match is replaced. */
  function ReplaceFirstEntry(s: string, k: string, v: string): string
  {
    match IndexOf(s, k + "=")
    case None => s
    case Some(p) => s[..p] + (k + "=" + v) + s[LineEnd(s, p + |k| + 1)..]
  }

  /**
   * The update of `TOKEN_MINT` and of each `<NAME>_TOKEN_ACCOUNT`: replace
   * the first `k=` entry through the end of its line, or append
   * `\nk=v` when the text has no `k=` at all.
   */
  function Upsert(s: string, k: string, v: string): (r: string)
    ensures Contains(r, k + "=" + v)
  {
    if Contains(s, k + "=") then
      var p := IndexOf(s, k + "=").value;
      assert OccursAt(ReplaceFirstEntry(s, k, v), k + "=" + v, p);
      ReplaceFirstEntry(s, k, v)
    else
      assert OccursAt(s + ("\n" + (k + "=" + v)), k + "=" + v, |s| + 1);
      s + ("\n" + (k + "=" + v))
  }

  /**
   * The value that the upsert's pattern sees: the text after the first `k=`
   * up to the end of that line.
   */
  function EntryValue(s: string, k: string): Option<string>
  {
    match IndexOf(s, k + "=")
    case None => None
    case Some(p) => Some(s[p + |k| + 1..LineEnd(s, p + |k| + 1)])
  }

  lemma {:induction false} IndexOfIs(s: string, pat: string, p: nat)
    requires OccursAt(s, pat, p)
    requires forall j :: 0 <= j < p ==> !OccursAt(s, pat, j)
    ensures IndexOf(s, pat) == Some(p)
  {
  }

  lemma {:induction false} LineEndIs(s: string, i: nat, e: nat)
    requires i <= e <= |s|
    requires forall j :: i <= j < e ==> !IsLineTerminator(s[j])
    requires e < |s| ==> IsLineTerminator(s[e])
    ensures LineEnd(s, i) == e
  {
    LineEndClean(s, i);
  }

  /** The line that position `i` lies on ends no later than any terminator at or after `i`. */
  lemma {:induction false} LineEndBefore(s: string, i: nat, j: nat)
    requires i <= j < |s| && IsLineTerminator(s[j])
    ensures LineEnd(s, i) <= j
    decreases j - i
  {
    if i < j && !IsLineTerminator(s[i]) {
      LineEndBefore(s, i + 1, j);
    }
  }

  /** `k=` cannot straddle a newline: a key has none, and neither has `=`. */
  lemma {:induction false} KeyHasNoNewline(k: string, i: int)
    requires IsEnvKey(k) && 0 <= i <= |k|
    ensures (k + "=")[i] != '\n'
  {
    if i < |k| { assert (k + "=")[i] == k[i]; }
  }

  /** Two texts that agree up to the end of `pat` at `p` have the same occurrences before `p`. */
  lemma {:induction false} SamePrefixSameOccurrences(s: string, r: string, pat: string, p: nat)
    requires p + |pat| <= |s| && p + |pat| <= |r| && r[..p + |pat|] == s[..p + |pat|]
    requires forall j :: 0 <= j < p ==> !OccursAt(s, pat, j)
    ensures forall j :: 0 <= j < p ==> !OccursAt(r, pat, j)
  {
    forall j | 0 <= j < p ensures !OccursAt(r, pat, j) {
      if OccursAt(r, pat, j) {
        assert r[j..j + |pat|] == r[..p + |pat|][j..j + |pat|];
        assert s[j..j + |pat|] == s[..p + |pat|][j..j + |pat|];
        assert OccursAt(s, pat, j);
      }
    }
  }

  /** The facts about splicing `key + v` over `s[p..e]` that the replace case needs. */
  lemma {:induction false} SpliceFacts(s: string, key: string, v: string, p: nat, e: nat)
    requires OccursAt(s, key, p) && p + |key| <= e <= |s| && NoLineTerminator(v)
    requires e < |s| ==> IsLineTerminator(s[e])
    ensures var r := s[..p] + (key + v) + s[e..];
      && r[..p + |key|] == s[..p + |key|]
      && OccursAt(r, key + v, p)
      && (forall j :: p + |key| <= j < p + |key| + |v| ==> !IsLineTerminator(r[j]))
      && (p + |key| + |v| < |r| ==> IsLineTerminator(r[p + |key| + |v|]))
  {
    var r := s[..p] + (key + v) + s[e..];
    assert s[p..p + |key|] == key;
    assert r[..p + |key|] == s[..p] + key;
    assert r[p..p + |key| + |v|] == key + v;
    forall j | p + |key| <= j < p + |key| + |v| ensures !IsLineTerminator(r[j]) {
      assert r[j] == v[j - p - |key|];
    }
    if p + |key| + |v| < |r| {
      assert r[p + |key| + |v|] == s[e];
    }
  }

  /** `k=v` at position `p` is the first `k=` of `r`, on a line that ends right after `v`. */
  predicate FirstEntryLine(r: string, k: string, v: string, p: nat)
  {
    && OccursAt(r, k + "=" + v, p)
    && IndexOf(r, k + "=") == Some(p)
    && LineEnd(r, p + |k| + 1) == p + |k| + 1 + |v|
  }

  /** When `k=` is present, the first `k=` stays where it was and now ends its line with `v`. */
  lemma {:induction false} ReplaceShape(s: string, k: string, v: string) returns (p: nat)
    requires NoLineTerminator(v) && Contains(s, k + "=")
    ensures FirstEntryLine(Upsert(s, k, v), k, v, p)
  {
    var e;
    p, e := ReplacesOnlyFirstEntryLine(s, k, v);
    SplicedShape(s, k, v, p, e);
  }

  /** The splice of `k=v` over the first `k=` line, on its own. */
  lemma {:induction false} SplicedShape(s: string, k: string, v: string, p: nat, e: nat)
    requires NoLineTerminator(v)
    requires OccursAt(s, k + "=", p) && forall j :: 0 <= j < p ==> !OccursAt(s, k + "=", j)
    requires p + |k| + 1 <= e <= |s| && (e < |s| ==> IsLineTerminator(s[e]))
    ensures FirstEntryLine(s[..p] + (k + "=" + v) + s[e..], k, v, p)
  {
    var key := k + "=";
    var r := s[..p] + (key + v) + s[e..];
    SpliceFacts(s, key, v, p, e);
    SamePrefixSameOccurrences(s, r, key, p);
    IndexOfIs(r, key, p);
    LineEndIs(r, p + |key|, p + |key| + |v|);
  }

  /** When `k=` is absent, the appended `k=` is the first one and runs to the end. */
  lemma {:induction false} AppendShape(s: string, k: string, v: string) returns (p: nat)
    requires IsEnvKey(k) && NoLineTerminator(v) && !Contains(s, k + "=")
    ensures FirstEntryLine(Upsert(s, k, v), k, v, p)
  {
    AppendsWhenAbsent(s, k, v);
    AppendedShape(s, k, v);
    p := |s| + 1;
  }

  /** The text with `\nk=v` appended, on its own. */
  lemma {:induction false} AppendedShape(s: string, k: string, v: string)
    requires IsEnvKey(k) && NoLineTerminator(v) && !Contains(s, k + "=")
    ensures FirstEntryLine(s + ("\n" + (k + "=" + v)), k, v, |s| + 1)
  {
    var key := k + "=";
    var n := |key|;
    var p := |s| + 1;
    var t := "\n" + (key + v);
    var r := s + t;
    NoOccurrenceBeforeNewline(s, t, k);
    assert r[p..p + n + |v|] == t[1..] == key + v;
    IndexOfIs(r, key, p);
    LineEndIs(r, p + n, p + n + |v|);
  }

  /** No `k=` that starts at or before an appended newline, when the text before it has none. */
  lemma {:induction false} NoOccurrenceBeforeNewline(s: string, t: string, k: string)
    requires IsEnvKey(k) && !Contains(s, k + "=") && |t| > 0 && t[0] == '\n'
    ensures forall j :: 0 <= j <= |s| ==> !OccursAt(s + t, k + "=", j)
  {
    var key := k + "=";
    var r := s + t;
    forall j | 0 <= j <= |s| ensures !OccursAt(r, key, j) {
      if OccursAt(r, key, j) {
        if j + |key| <= |s| {
          assert r[j..j + |key|] == s[j..j + |key|];
          assert OccursAt(s, key, j);
        } else {
          assert r[|s|] == r[j..j + |key|][|s| - j];
          KeyHasNoNewline(k, |s| - j);
        }
      }
    }
  }

  /**
   * What one upsert leaves behind: `k=v` at position `p`, which is the first
   * `k=` of the result, on a line that ends right after `v`.
   */
  lemma {:induction false} UpsertShape(s: string, k: string, v: string) returns (p: nat)
    requires IsEnvKey(k) && NoLineTerminator(v)
    ensures FirstEntryLine(Upsert(s, k, v), k, v, p)
  {
    if Contains(s, k + "=") {
      p := ReplaceShape(s, k, v);
    } else {
      p := AppendShape(s, k, v);
    }
  }

  /**
   * When `k=` is present, everything before its first occurrence and
   * everything from the end of that line on is kept; the line's tail after
   * `k=` becomes `v`.
   */
  lemma {:induction false} ReplacesOnlyFirstEntryLine(s: string, k: string, v: string) returns (p: nat, e: nat)
    requires Contains(s, k + "=")
    ensures OccursAt(s, k + "=", p) && forall j :: 0 <= j < p ==> !OccursAt(s, k + "=", j)
    ensures p + |k| + 1 <= e <= |s| && NoLineTerminator(s[p + |k| + 1..e])
    ensures e < |s| ==> IsLineTerminator(s[e])
    ensures Upsert(s, k, v) == s[..p] + (k + "=" + v) + s[e..]
  {
    p := FirstOccurrence(s, k + "=");
    e := LineEnd(s, p + |k| + 1);
    UpsertReplaces(s, k, v);
    ReplaceFirstAt(s, k, v, p);
    LineEndCleanSlice(s, p + |k| + 1);
  }

  lemma {:induction false} LineEndCleanSlice(s: string, i: nat)
    requires i <= |s|
    ensures NoLineTerminator(s[i..LineEnd(s, i)])
  {
    LineEndClean(s, i);
    var tail := s[i..LineEnd(s, i)];
    forall j | 0 <= j < |tail| ensures !IsLineTerminator(tail[j]) {
      assert tail[j] == s[i + j];
    }
  }

  /** The first occurrence of a pattern the text contains. */
  lemma {:induction false} FirstOccurrence(s: string, pat: string) returns (p: nat)
    requires Contains(s, pat)
    ensures IndexOf(s, pat) == Some(p)
    ensures OccursAt(s, pat, p) && forall j :: 0 <= j < p ==> !OccursAt(s, pat, j)
  {
    var i :| 0 <= i <= |s| - |pat| && OccursAt(s, pat, i);
    p := IndexOf(s, pat).value;
  }

  lemma {:induction false} UpsertReplaces(s: string, k: string, v: string)
    requires Contains(s, k + "=")
    ensures Upsert(s, k, v) == ReplaceFirstEntry(s, k, v)
  {
  }

  lemma {:induction false} ReplaceFirstAt(s: string, k: string, v: string, p: nat)
    requires IndexOf(s, k + "=") == Some(p)
    ensures ReplaceFirstEntry(s, k, v) == s[..p] + (k + "=" + v) + s[LineEnd(s, p + |k| + 1)..]
  {
  }

  /** Without any `k=` in the text, the entry is appended on a new line. */
  lemma {:induction false} AppendsWhenAbsent(s: string, k: string, v: string)
    requires !Contains(s, k + "=")
    ensures Upsert(s, k, v) == s + ("\n" + (k + "=" + v))
    ensures |Upsert(s, k, v)| == |s| + |k| + |v| + 2
  {
  }

  /** Reading back the entry just written yields the value written. */
  lemma {:induction false} UpsertThenRead(s: string, k: string, v: string)
    requires IsEnvKey(k) && NoLineTerminator(v)
    ensures EntryValue(Upsert(s, k, v), k) == Some(v)
  {
    var p := UpsertShape(s, k, v);
    ReadAt(Upsert(s, k, v), k, v, p);
  }

  /** The value of the first `k=` line, when that line is `k=v`. */
  lemma {:induction false} ReadAt(r: string, k: string, v: string, p: nat)
    requires FirstEntryLine(r, k, v, p)
    ensures EntryValue(r, k) == Some(v)
  {
    var q := p + |k| + 1;
    assert r[q..q + |v|] == r[p..q + |v|][|k| + 1..];
    assert (k + "=" + v)[|k| + 1..] == v;
  }

  /** Replacing an entry by the value it already has on its own line changes nothing. */
  lemma {:induction false} ReplaceOwnEntry(r: string, k: string, v: string, p: nat)
    requires FirstEntryLine(r, k, v, p)
    ensures ReplaceFirstEntry(r, k, v) == r
  {
    ReplaceFirstAt(r, k, v, p);
    SpliceSame(r, p, p + |k| + 1 + |v|, k + "=" + v);
  }

  lemma {:induction false} SpliceSame(r: string, p: nat, m: nat, w: string)
    requires p <= m <= |r| && r[p..m] == w
    ensures r[..p] + w + r[m..] == r
  {
    assert r == r[..p] + r[p..m] + r[m..];
  }

  /** Writing the same entry twice is the same as writing it once. */
  lemma {:induction false} UpsertIdempotent(s: string, k: string, v: string)
    requires IsEnvKey(k) && NoLineTerminator(v)
    ensures Upsert(Upsert(s, k, v), k, v) == Upsert(s, k, v)
  {
    var r := Upsert(s, k, v);
    var p := UpsertShape(s, k, v);
    assert OccursAt(r, k + "=", p) by {
      assert r[p..p + |k| + 1] == (k + "=" + v)[..|k| + 1];
    }
    assert Contains(r, k + "=");
    ReplaceOwnEntry(r, k, v, p);
  }

  /** A complete `k=...\n` entry starts at the head of `s`. */
  predicate EntryAtHead(s: string, k: string)
  {
    OccursAt(s, k + "=", 0) && LineEnd(s, |k| + 1) < |s| && s[LineEnd(s, |k| + 1)] == '\n'
  }

  /**
   * `s.replace(new RegExp(k + '=.*\n', 'g'), '')`: a left-to-right scan that
   * deletes every `k=` through the next newline, resuming after each deletion.
   */
  function RemoveEntries(s: string, k: string): string
    decreases |s|
  {
    if s == [] then []
    else if EntryAtHead(s, k) then RemoveEntries(s[LineEnd(s, |k| + 1) + 1..], k)
    else [s[0]] + RemoveEntries(s[1..], k)
  }

  /** Text without a newline is never changed: an unterminated last line survives. */
  lemma {:induction false} NoNewlineUntouched(s: string, k: string)
    requires forall i :: 0 <= i < |s| ==> s[i] != '\n'
    ensures RemoveEntries(s, k) == s
  {
    if s != [] {
      NoNewlineUntouched(s[1..], k);
    }
  }

  /** An entry written as the last line without a trailing newline is kept. */
  lemma {:induction false} UnterminatedEntryKept(k: string, v: string)
    requires IsEnvKey(k) && NoLineTerminator(v)
    ensures RemoveEntries(k + "=" + v, k) == k + "=" + v
  {
    var s := k + "=" + v;
    forall i | 0 <= i < |s| ensures s[i] != '\n' {
      if i > |k| { assert s[i] == v[i - |k| - 1]; }
    }
    NoNewlineUntouched(s, k);
  }

  /** Text without any `k=` is returned unchanged. */
  lemma {:induction false} NoEntryUntouched(s: string, k: string)
    requires !Contains(s, k + "=")
    ensures RemoveEntries(s, k) == s
  {
    if s != [] {
      assert !OccursAt(s, k + "=", 0);
      assert !Contains(s[1..], k + "=") by {
        forall j | 0 <= j <= |s[1..]| - |k + "="| ensures !OccursAt(s[1..], k + "=", j) {
          if OccursAt(s[1..], k + "=", j) {
            assert s[j + 1..j + 1 + |k + "="|] == s[1..][j..j + |k + "="|];
            assert OccursAt(s, k + "=", j + 1);
          }
        }
      }
      NoEntryUntouched(s[1..], k);
    }
  }

  /** A single complete entry line is deleted entirely. */
  lemma {:induction false} EntryLineRemoved(k: string, v: string)
    requires NoLineTerminator(v)
    ensures RemoveEntries(k + "=" + v + "\n", k) == ""
  {
    var s := k + "=" + v + "\n";
    assert OccursAt(s, k + "=", 0);
    LineEndIs(s, |k| + 1, |k| + 1 + |v|);
    assert s[|k| + 1 + |v| + 1..] == [];
  }

  /** At the head of `a + b`, where `a` ends with a newline, an entry lies wholly inside `a`. */
  lemma {:induction false} HeadEntryInPrefix(a: string, b: string, k: string)
    requires IsEnvKey(k) && |a| > 0 && a[|a| - 1] == '\n'
    ensures EntryAtHead(a + b, k) == EntryAtHead(a, k)
    ensures EntryAtHead(a, k) ==> LineEnd(a + b, |k| + 1) == LineEnd(a, |k| + 1) < |a|
  {
    var s := a + b;
    var key := k + "=";
    if |key| >= |a| {
      KeyHasNoNewline(k, |a| - 1);
      assert !OccursAt(s, key, 0);
      assert !OccursAt(a, key, 0);
    } else {
      assert s[..|key|] == a[..|key|];
      if OccursAt(a, key, 0) {
        LineEndBefore(a, |key|, |a| - 1);
        var e := LineEnd(a, |key|);
        LineEndClean(a, |key|);
        LineEndIs(s, |key|, e);
      }
    }
  }

  /**
   * The scan never crosses a newline that ends a prefix: removing entries
   * from `a + b` is removing them from `a` and from `b` separately.
   */
  lemma {:induction false} RemoveSplitsAtNewline(a: string, b: string, k: string)
    requires IsEnvKey(k)
    requires a == [] || a[|a| - 1] == '\n'
    ensures RemoveEntries(a + b, k) == RemoveEntries(a, k) + RemoveEntries(b, k)
    decreases |a|, 1
  {
    if a == [] {
      assert a + b == b && RemoveEntries(a, k) == [];
      assert RemoveEntries(a, k) + RemoveEntries(b, k) == RemoveEntries(b, k);
    } else if EntryAtHead(a, k) {
      RemoveSplitEntryCase(a, b, k);
    } else {
      RemoveSplitOtherCase(a, b, k);
    }
  }

  /** The step of the split when `a` starts with an entry line: both sides drop it. */
  lemma {:induction false} RemoveSplitEntryCase(a: string, b: string, k: string)
    requires IsEnvKey(k) && |a| > 0 && a[|a| - 1] == '\n' && EntryAtHead(a, k)
    ensures RemoveEntries(a + b, k) == RemoveEntries(a, k) + RemoveEntries(b, k)
    decreases |a|, 0
  {
    var e := LineEnd(a, |k| + 1);
    HeadEntryInPrefix(a, b, k);
    var rest := a[e + 1..];
    assert rest == [] || rest[|rest| - 1] == a[|a| - 1];
    RemoveStepEntry(a + b, k);
    RemoveStepEntry(a, k);
    SliceOfConcat(a, b, e + 1);
    assert RemoveEntries(a + b, k) == RemoveEntries(rest + b, k);
    assert RemoveEntries(a, k) == RemoveEntries(rest, k);
    RemoveSplitsAtNewline(rest, b, k);
  }

  /** The step of the split when `a` does not start with an entry line: both sides keep `a[0]`. */
  lemma {:induction false} RemoveSplitOtherCase(a: string, b: string, k: string)
    requires IsEnvKey(k) && |a| > 0 && a[|a| - 1] == '\n' && !EntryAtHead(a, k)
    ensures RemoveEntries(a + b, k) == RemoveEntries(a, k) + RemoveEntries(b, k)
    decreases |a|, 0
  {
    HeadEntryInPrefix(a, b, k);
    SliceOfConcat(a, b, 1);
    RemoveStepOther(a + b, k);
    RemoveStepOther(a, k);
    RemoveSplitsAtNewline(a[1..], b, k);
    ConsAssoc(a[0], RemoveEntries(a[1..], k), RemoveEntries(b, k));
  }

  lemma {:induction false} SliceOfConcat(a: string, b: string, i: nat)
    requires i <= |a|
    ensures (a + b)[i..] == a[i..] + b
    ensures i < |a| ==> (a + b)[i] == a[i]
  {
  }

  lemma {:induction false} ConsAssoc(c: char, x: string, y: string)
    ensures [c] + (x + y) == ([c] + x) + y
  {
  }

  lemma {:induction false} RemoveStepEntry(s: string, k: string)
    requires EntryAtHead(s, k)
    ensures RemoveEntries(s, k) == RemoveEntries(s[LineEnd(s, |k| + 1) + 1..], k)
  {
  }

  lemma {:induction false} RemoveStepOther(s: string, k: string)
    requires s != [] && !EntryAtHead(s, k)
    ensures RemoveEntries(s, k) == [s[0]] + RemoveEntries(s[1..], k)
  {
  }

  /** The lines of a text, each followed by its newline. */
  function JoinLines(lines: seq<string>): string
  {
    if lines == [] then "" else lines[0] + "\n" + JoinLines(lines[1..])
  }

  /** A line that starts with `k=`. */
  predicate IsEntryFor(line: string, k: string)
  {
    OccursAt(line, k + "=", 0)
  }

  predicate IsEntryForAny(line: string, keys: seq<string>)
  {
    exists i | 0 <= i < |keys| :: IsEntryFor(line, keys[i])
  }

  /** The lines that are not an entry for any of `keys`, in their order. */
  function KeepLines(lines: seq<string>, keys: seq<string>): seq<string>
  {
    if lines == [] then []
    else (if IsEntryForAny(lines[0], keys) then [] else [lines[0]]) + KeepLines(lines[1..], keys)
  }

  /** Exactly the lines that are no entry for any key survive. */
  lemma {:induction false} KeepLinesMembers(lines: seq<string>, keys: seq<string>)
    ensures forall line :: line in KeepLines(lines, keys) <==> line in lines && !IsEntryForAny(line, keys)
  {
    if lines != [] {
      KeepLinesMembers(lines[1..], keys);
      assert lines == [lines[0]] + lines[1..];
    }
  }

  /**
   * A text of clean lines, where each line is either an entry for `k` or
   * does not mention `k=` at all.
   */
  predicate CleanFor(lines: seq<string>, k: string)
  {
    forall i :: 0 <= i < |lines| ==>
      NoLineTerminator(lines[i]) && (IsEntryFor(lines[i], k) || !Contains(lines[i], k + "="))
  }

  lemma {:induction false} EntryForOne(line: string, k: string)
    ensures IsEntryForAny(line, [k]) == IsEntryFor(line, k)
  {
    if IsEntryFor(line, k) { assert [k][0] == k; }
  }

  /** A clean entry line for `k`, with its newline, is removed entirely. */
  lemma {:induction false} EntryLineGone(line: string, k: string)
    requires NoLineTerminator(line) && IsEntryFor(line, k)
    ensures RemoveEntries(line + "\n", k) == ""
  {
    var v := line[|k| + 1..];
    assert line == k + "=" + v by { assert line[..|k| + 1] == k + "="; }
    assert NoLineTerminator(v) by {
      forall i | 0 <= i < |v| ensures !IsLineTerminator(v[i]) { assert v[i] == line[|k| + 1 + i]; }
    }
    EntryLineRemoved(k, v);
  }

  /** A line that does not mention `k=` is kept, with its newline. */
  lemma {:induction false} PlainLineKept(line: string, k: string)
    requires IsEnvKey(k) && !Contains(line, k + "=")
    ensures RemoveEntries(line + "\n", k) == line + "\n"
  {
    NoOccurrenceBeforeNewline(line, "\n", k);
    assert !Contains(line + "\n", k + "=") by {
      forall j | 0 <= j <= |line + "\n"| - |k + "="| ensures !OccursAt(line + "\n", k + "=", j) {
      }
    }
    NoEntryUntouched(line + "\n", k);
  }

  /** On such a text, removal drops exactly the entry lines for `k`. */
  lemma {:induction false} RemoveDropsEntryLines(lines: seq<string>, k: string)
    requires IsEnvKey(k) && CleanFor(lines, k)
    ensures RemoveEntries(JoinLines(lines), k) == JoinLines(KeepLines(lines, [k]))
  {
    if lines != [] {
      var line := lines[0];
      var rest := lines[1..];
      assert JoinLines(lines) == (line + "\n") + JoinLines(rest);
      RemoveSplitsAtNewline(line + "\n", JoinLines(rest), k);
      RemoveDropsEntryLines(rest, k);
      EntryForOne(line, k);
      if IsEntryFor(line, k) {
        EntryLineGone(line, k);
        assert KeepLines(lines, [k]) == KeepLines(rest, [k]);
      } else {
        PlainLineKept(line, k);
        assert KeepLines(lines, [k]) == [line] + KeepLines(rest, [k]);
      }
    }
  }

  /** The wallet clean-up: one global removal per key, in key order. */
  function RemoveAllEntries(s: string, keys: seq<string>): string
    decreases |keys|
  {
    if keys == [] then s
    else RemoveEntries(RemoveAllEntries(s, keys[..|keys| - 1]), keys[|keys| - 1])
  }

  lemma {:induction false} EntryForAppend(line: string, ks1: seq<string>, ks2: seq<string>)
    ensures IsEntryForAny(line, ks1 + ks2) <==> IsEntryForAny(line, ks1) || IsEntryForAny(line, ks2)
  {
    var ks := ks1 + ks2;
    if IsEntryForAny(line, ks) {
      var i :| 0 <= i < |ks| && IsEntryFor(line, ks[i]);
      if i < |ks1| { assert ks[i] == ks1[i]; } else { assert ks[i] == ks2[i - |ks1|]; }
    }
    if IsEntryForAny(line, ks1) {
      var i :| 0 <= i < |ks1| && IsEntryFor(line, ks1[i]);
      assert ks[i] == ks1[i];
    }
    if IsEntryForAny(line, ks2) {
      var i :| 0 <= i < |ks2| && IsEntryFor(line, ks2[i]);
      assert ks[|ks1| + i] == ks2[i];
    }
  }

  /** Filtering by one key list and then by another is filtering by both. */
  lemma {:induction false} KeepLinesCompose(lines: seq<string>, ks1: seq<string>, ks2: seq<string>)
    ensures KeepLines(KeepLines(lines, ks1), ks2) == KeepLines(lines, ks1 + ks2)
  {
    if lines != [] {
      var line := lines[0];
      var rest := lines[1..];
      KeepLinesCompose(rest, ks1, ks2);
      EntryForAppend(line, ks1, ks2);
      if !IsEntryForAny(line, ks1) {
        var t := KeepLines(lines, ks1);
        assert t == [line] + KeepLines(rest, ks1);
        assert t[0] == line && t[1..] == KeepLines(rest, ks1);
      } else {
        assert KeepLines(lines, ks1) == KeepLines(rest, ks1);
        assert KeepLines(lines, ks1 + ks2) == KeepLines(rest, ks1 + ks2);
      }
    }
  }

  lemma {:induction false} KeepLinesStaysClean(lines: seq<string>, keys: seq<string>, k: string)
    requires CleanFor(lines, k)
    ensures CleanFor(KeepLines(lines, keys), k)
  {
    KeepLinesMembers(lines, keys);
    var kept := KeepLines(lines, keys);
    forall i | 0 <= i < |kept|
      ensures NoLineTerminator(kept[i]) && (IsEntryFor(kept[i], k) || !Contains(kept[i], k + "="))
    {
      assert kept[i] in lines;
    }
  }

  lemma {:induction false} KeepNothing(lines: seq<string>)
    ensures KeepLines(lines, []) == lines
  {
    if lines != [] { KeepNothing(lines[1..]); }
  }

  /**
   * On a text of clean lines where every line either starts with `key=` or
   * contains no `key=`, for every key, the clean-up drops exactly the entry
   * lines of those keys and keeps every other line in order.
   */
  lemma {:induction false} RemoveAllDropsEntryLines(lines: seq<string>, keys: seq<string>)
    requires forall i :: 0 <= i < |keys| ==> IsEnvKey(keys[i]) && CleanFor(lines, keys[i])
    ensures RemoveAllEntries(JoinLines(lines), keys) == JoinLines(KeepLines(lines, keys))
    decreases |keys|
  {
    if keys == [] {
      KeepNothing(lines);
    } else {
      var init := keys[..|keys| - 1];
      var last := keys[|keys| - 1];
      RemoveAllDropsEntryLines(lines, init);
      KeepLinesStaysClean(lines, init, last);
      RemoveDropsEntryLines(KeepLines(lines, init), last);
      KeepLinesCompose(lines, init, [last]);
      assert init + [last] == keys;
    }
  }

  lemma {:induction false} JoinLinesAppend(a: seq<string>, b: seq<string>)
    ensures JoinLines(a + b) == JoinLines(a) + JoinLines(b)
  {
    if a == [] {
      assert a + b == b;
    } else {
      JoinLinesAppend(a[1..], b);
      assert (a + b)[0] == a[0];
      assert (a + b)[1..] == a[1..] + b;
    }
  }

  /** A `k2=v` line is an entry for `k1` exactly when the keys are equal: no key is a prefix of another's entry. */
  lemma {:induction false} EntryLineKey(k1: string, k2: string, v: string)
    requires IsEnvKey(k1) && IsEnvKey(k2)
    ensures IsEntryFor(k2 + "=" + v, k1) <==> k1 == k2
  {
    var line := k2 + "=" + v;
    if IsEntryFor(line, k1) {
      assert line[..|k1| + 1] == k1 + "=";
      assert line[|k1|] == '=' && line[|k2|] == '=';
      assert |k2| <= |k1| ==> (k1 + "=")[|k2|] == line[|k2|];
      assert k1 == line[..|k1|] == k2;
    }
    if k1 == k2 {
      assert line[..|k1| + 1] == k1 + "=";
    }
  }

  /** The `KEY=value` lines for paired keys and values, in order. */
  function EntryLines(keys: seq<string>, values: seq<string>): (r: seq<string>)
    requires |keys| == |values|
    ensures |r| == |keys| && forall i :: 0 <= i < |r| ==> r[i] == keys[i] + "=" + values[i]
  {
    seq(|keys|, i requires 0 <= i < |keys| => keys[i] + "=" + values[i])
  }

  // ---------------------------------------------------------------------
  // Reading the text back: `dotenv` sees the entries that start a line
  // ---------------------------------------------------------------------

  /** A text with no `\n` in it. */
  predicate OneLine(s: string)
  {
    forall i :: 0 <= i < |s| ==> s[i] != '\n'
  }

  /** The text is empty or its last line is terminated. */
  predicate EndsLine(s: string)
  {
    s == [] || s[|s| - 1] == '\n'
  }

  /** The text split at every `\n`; what follows the last `\n` is the final element. */
  function SplitLines(s: string): (r: seq<string>)
    ensures |r| > 0
  {
    if s == [] then [""]
    else
      var rest := SplitLines(s[1..]);
      if s[0] == '\n' then [""] + rest else [[s[0]] + rest[0]] + rest[1..]
  }

  /** The inverse of splitting: the lines joined with `\n`, the last one unterminated. */
  function Unsplit(lines: seq<string>): string
    requires |lines| > 0
  {
    JoinLines(lines[..|lines| - 1]) + lines[|lines| - 1]
  }

  /** Splitting loses nothing: the lines joined back give the text, and none holds a `\n`. */
  lemma {:induction false} SplitLinesRoundTrip(s: string)
    ensures Unsplit(SplitLines(s)) == s
    ensures forall i :: 0 <= i < |SplitLines(s)| ==> OneLine(SplitLines(s)[i])
  {
    if s != [] {
      SplitLinesRoundTrip(s[1..]);
      var rest := SplitLines(s[1..]);
      assert s == [s[0]] + s[1..];
      if s[0] == '\n' {
        assert SplitLines(s) == [""] + rest;
        UnsplitCons("", rest);
      } else {
        var head := [s[0]] + rest[0];
        assert SplitLines(s) == [head] + rest[1..];
        UnsplitHead(s[0], rest);
        assert OneLine(head) by {
          forall j | 0 <= j < |head| ensures head[j] != '\n' {
            if j > 0 { assert head[j] == rest[0][j - 1]; }
          }
        }
      }
    }
  }

  lemma {:induction false} UnsplitCons(x: string, lines: seq<string>)
    requires |lines| > 0
    ensures Unsplit([x] + lines) == x + "\n" + Unsplit(lines)
  {
    var l := [x] + lines;
    assert l[..|l| - 1] == [x] + lines[..|lines| - 1];
    assert l[|l| - 1] == lines[|lines| - 1];
  }

  lemma {:induction false} UnsplitHead(c: char, lines: seq<string>)
    requires |lines| > 0
    ensures Unsplit([[c] + lines[0]] + lines[1..]) == [c] + Unsplit(lines)
  {
    var n := |lines|;
    var l := [[c] + lines[0]] + lines[1..];
    if n == 1 {
      assert l == [[c] + lines[0]];
      assert l[..0] == [] && lines[..0] == [];
    } else {
      assert l[..n - 1] == [[c] + lines[0]] + lines[1..n - 1];
      assert lines[..n - 1] == [lines[0]] + lines[1..n - 1];
      assert l[n - 1] == lines[n - 1];
    }
  }

  /** The lines of `a` then `b`, where the last line of `a` and the first of `b` are one line. */
  function Glue(la: seq<string>, lb: seq<string>): seq<string>
    requires |la| > 0 && |lb| > 0
  {
    la[..|la| - 1] + [la[|la| - 1] + lb[0]] + lb[1..]
  }

  /** Splitting a concatenation glues the last line of `a` to the first line of `b`. */
  lemma {:induction false} SplitLinesAppend(a: string, b: string)
    ensures SplitLines(a + b) == Glue(SplitLines(a), SplitLines(b))
  {
    var sb := SplitLines(b);
    if a == [] {
      assert a + b == b;
      assert SplitLines(a) == [""];
      assert "" + sb[0] == sb[0];
      assert [sb[0]] + sb[1..] == sb;
    } else {
      SplitLinesAppend(a[1..], b);
      if a[0] == '\n' {
        SplitAppendNewline(a, b);
      } else {
        SplitAppendChar(a, b);
      }
    }
  }

  lemma {:induction false} SplitAppendNewline(a: string, b: string)
    requires a != [] && a[0] == '\n'
    requires SplitLines(a[1..] + b) == Glue(SplitLines(a[1..]), SplitLines(b))
    ensures SplitLines(a + b) == Glue(SplitLines(a), SplitLines(b))
  {
    var s1, sb := SplitLines(a[1..]), SplitLines(b);
    var ab := a + b;
    assert ab[0] == '\n' && ab[1..] == a[1..] + b;
    assert SplitLines(ab) == [""] + Glue(s1, sb);
    assert SplitLines(a) == [""] + s1;
    GlueCons("", s1, sb);
  }

  lemma {:induction false} SplitAppendChar(a: string, b: string)
    requires a != [] && a[0] != '\n'
    requires SplitLines(a[1..] + b) == Glue(SplitLines(a[1..]), SplitLines(b))
    ensures SplitLines(a + b) == Glue(SplitLines(a), SplitLines(b))
  {
    var s1, sb := SplitLines(a[1..]), SplitLines(b);
    var ab := a + b;
    assert ab[0] == a[0] && ab[1..] == a[1..] + b;
    var g := Glue(s1, sb);
    assert SplitLines(ab) == [[a[0]] + g[0]] + g[1..];
    assert SplitLines(a) == [[a[0]] + s1[0]] + s1[1..];
    GlueHead(a[0], s1, sb);
  }

  /** Gluing commutes with putting a whole line in front. */
  lemma {:induction false} GlueCons(x: string, la: seq<string>, lb: seq<string>)
    requires |la| > 0 && |lb| > 0
    ensures Glue([x] + la, lb) == [x] + Glue(la, lb)
  {
    var l := [x] + la;
    assert l[..|l| - 1] == [x] + la[..|la| - 1];
    assert l[|l| - 1] == la[|la| - 1];
  }

  /** Gluing commutes with putting a character in front of the first line. */
  lemma {:induction false} GlueHead(c: char, la: seq<string>, lb: seq<string>)
    requires |la| > 0 && |lb| > 0
    ensures var g := Glue(la, lb);
            Glue([[c] + la[0]] + la[1..], lb) == [[c] + g[0]] + g[1..]
  {
    var g := Glue(la, lb);
    var l := [[c] + la[0]] + la[1..];
    if |la| == 1 {
      assert l == [[c] + la[0]];
      assert g == [la[0] + lb[0]] + lb[1..];
      assert [c] + (la[0] + lb[0]) == ([c] + la[0]) + lb[0];
    } else {
      assert l[..|l| - 1] == [[c] + la[0]] + la[1..|la| - 1];
      assert l[|l| - 1] == la[|la| - 1];
      assert g[0] == la[0];
      assert g[1..] == la[1..|la| - 1] + [la[|la| - 1] + lb[0]] + lb[1..];
    }
  }

  lemma {:induction false} SplitOneLine(x: string)
    requires OneLine(x)
    ensures SplitLines(x) == [x]
  {
    if x != [] {
      SplitOneLine(x[1..]);
      assert [x[0]] + x[1..] == x;
    }
  }

  lemma SplitNewline()
    ensures SplitLines("\n") == ["", ""]
  {
    assert "\n"[1..] == "";
  }

  /** The clean lines written one after the other split back into themselves, then an empty last line. */
  lemma {:induction false} SplitJoinLines(lines: seq<string>)
    requires forall i :: 0 <= i < |lines| ==> OneLine(lines[i])
    ensures SplitLines(JoinLines(lines)) == lines + [""]
  {
    if lines != [] {
      var rest := lines[1..];
      SplitJoinLines(rest);
      SplitOneLine(lines[0]);
      SplitNewline();
      SplitLinesAppend(lines[0], "\n");
      assert Glue([lines[0]], ["", ""]) == [lines[0] + ""] + [""];
      assert lines[0] + "" == lines[0];
      SplitLinesAppend(lines[0] + "\n", JoinLines(rest));
      assert JoinLines(lines) == (lines[0] + "\n") + JoinLines(rest);
      var tail := rest + [""];
      assert "" + tail[0] == tail[0];
      assert [tail[0]] + tail[1..] == tail;
      assert Glue([lines[0], ""], tail) == [lines[0]] + tail;
      assert [lines[0]] + (rest + [""]) == lines + [""];
    }
  }

  /** A text whose last line is terminated splits with an empty final element. */
  lemma {:induction false} SplitEndsLine(s: string)
    requires EndsLine(s)
    ensures SplitLines(s)[|SplitLines(s)| - 1] == ""
  {
    if s != [] {
      var a := s[..|s| - 1];
      assert s == a + "\n";
      SplitNewline();
      SplitLinesAppend(a, "\n");
    }
  }

  /**
   * The value of the last line that is an entry for `k`, the rest of that
   * line: what the reader keeps when a key is written twice.
   */
  function LastEntry(lines: seq<string>, k: string): Option<string>
    decreases |lines|
  {
    if lines == [] then None
    else if IsEntryFor(lines[|lines| - 1], k) then Some(lines[|lines| - 1][|k| + 1..])
    else LastEntry(lines[..|lines| - 1], k)
  }

  /** The entry for `k` that a reader of the text sees: only entries that start a line count. */
  function ParsedValue(s: string, k: string): Option<string>
  {
    LastEntry(SplitLines(s), k)
  }

  /** A later block of lines decides the value whenever it holds an entry for the key. */
  lemma {:induction false} LastEntryAppend(l1: seq<string>, l2: seq<string>, k: string)
    ensures LastEntry(l1 + l2, k) == if LastEntry(l2, k).Some? then LastEntry(l2, k) else LastEntry(l1, k)
    decreases |l2|
  {
    if l2 == [] {
      assert l1 + l2 == l1;
    } else {
      var n := |l2| - 1;
      assert (l1 + l2)[..|l1 + l2| - 1] == l1 + l2[..n];
      assert (l1 + l2)[|l1 + l2| - 1] == l2[n];
      LastEntryAppend(l1, l2[..n], k);
    }
  }

  /** A key has no value exactly when no line is an entry for it. */
  lemma {:induction false} NoValueIffNoEntry(lines: seq<string>, k: string)
    ensures LastEntry(lines, k) == None <==> forall i :: 0 <= i < |lines| ==> !IsEntryFor(lines[i], k)
    decreases |lines|
  {
    if lines != [] {
      var n := |lines| - 1;
      NoValueIffNoEntry(lines[..n], k);
      assert forall i :: 0 <= i < n ==> lines[..n][i] == lines[i];
    }
  }

  /** The value read is that of the entry line after which no line is an entry for the key. */
  lemma {:induction false} LastEntryIs(lines: seq<string>, k: string, i: nat, v: string)
    requires i < |lines| && lines[i] == k + "=" + v
    requires forall j :: i < j < |lines| ==> !IsEntryFor(lines[j], k)
    ensures LastEntry(lines, k) == Some(v)
    decreases |lines|
  {
    var n := |lines| - 1;
    if i < n {
      assert forall j :: i < j < n ==> lines[..n][j] == lines[j];
      LastEntryIs(lines[..n], k, i, v);
    } else {
      LastLineEntry(lines[..n], k, v);
      assert lines == lines[..n] + [k + "=" + v];
    }
  }

  /** A `k=v` line on a line of its own is read back as `v`, whatever comes before it. */
  lemma {:induction false} LastLineEntry(lines: seq<string>, k: string, v: string)
    ensures LastEntry(lines + [k + "=" + v], k) == Some(v)
  {
    var line := k + "=" + v;
    assert line[..|k| + 1] == k + "=";
    assert line[|k| + 1..] == v;
    assert (lines + [line])[|lines|] == line;
  }
}
