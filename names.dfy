/**
 * Keys and file names derived from a distribution target's display name:
 * `name.toUpperCase().replace(/\s+/g, '_') + '_TOKEN_ACCOUNT'` and
 * `path.join('wallets', name.toLowerCase().replace(/\s+/g, '_') + '.json')`.
 */
module Names {
  import EnvText

  /** JavaScript's `\s`: the ECMAScript white space and line terminator characters. */
  predicate IsJsWhitespace(c: char)
  {
    c == '\t' || c == '\n' || c == '\U{000B}' || c == '\U{000C}' || c == '\r' || c == ' '
    || c == '\U{00A0}' || c == '\U{1680}' || ('\U{2000}' <= c <= '\U{200A}')
    || c == '\U{2028}' || c == '\U{2029}' || c == '\U{202F}' || c == '\U{205F}'
    || c == '\U{3000}' || c == '\U{FEFF}'
  }

  /** `toUpperCase` on ASCII letters; every other character is left as it is. */
  function UpperChar(c: char): char
  {
    if 'a' <= c <= 'z' then (c as int - 'a' as int + 'A' as int) as char else c
  }

  /** `toLowerCase` on ASCII letters; every other character is left as it is. */
  function LowerChar(c: char): char
  {
    if 'A' <= c <= 'Z' then (c as int - 'A' as int + 'a' as int) as char else c
  }

  function ToUpper(s: string): (r: string)
    ensures |r| == |s| && forall i :: 0 <= i < |s| ==> r[i] == UpperChar(s[i])
  {
    seq(|s|, i requires 0 <= i < |s| => UpperChar(s[i]))
  }

  function ToLower(s: string): (r: string)
    ensures |r| == |s| && forall i :: 0 <= i < |s| ==> r[i] == LowerChar(s[i])
  {
    seq(|s|, i requires 0 <= i < |s| => LowerChar(s[i]))
  }

  /** The text after the leading run of white space. */
  function SkipWhitespace(s: string): (r: string)
    ensures |r| <= |s| && (r == [] || !IsJsWhitespace(r[0]))
  {
    if s != [] && IsJsWhitespace(s[0]) then SkipWhitespace(s[1..]) else s
  }

  /** `replace(/\s+/g, '_')`: every maximal run of white space becomes one underscore. */
  function CollapseWhitespace(s: string): (r: string)
    decreases |s|
  {
    if s == [] then []
    else if IsJsWhitespace(s[0]) then "_" + CollapseWhitespace(SkipWhitespace(s[1..]))
    else [s[0]] + CollapseWhitespace(s[1..])
  }

  function TokenAccountKey(name: string): string
  {
    CollapseWhitespace(ToUpper(name)) + "_TOKEN_ACCOUNT"
  }

  function WalletPath(name: string): string
  {
    "wallets/" + CollapseWhitespace(ToLower(name)) + ".json"
  }

  /** The collapse leaves no white space behind. */
  lemma {:induction false} CollapseRemovesWhitespace(s: string)
    ensures forall i :: 0 <= i < |CollapseWhitespace(s)| ==> !IsJsWhitespace(CollapseWhitespace(s)[i])
    decreases |s|
  {
    if s != [] {
      if IsJsWhitespace(s[0]) {
        CollapseRemovesWhitespace(SkipWhitespace(s[1..]));
      } else {
        CollapseRemovesWhitespace(s[1..]);
      }
    }
  }

  /** Text without white space is left as it is. */
  lemma {:induction false} CollapseKeepsPlainText(s: string)
    requires forall i :: 0 <= i < |s| ==> !IsJsWhitespace(s[i])
    ensures CollapseWhitespace(s) == s
  {
    if s != [] {
      CollapseKeepsPlainText(s[1..]);
    }
  }

  /** Names made of ASCII letters and white space. */
  predicate IsTargetName(name: string)
  {
    forall i :: 0 <= i < |name| ==> ('a' <= name[i] <= 'z' || 'A' <= name[i] <= 'Z' || IsJsWhitespace(name[i]))
  }

  predicate UpperOrWhitespace(s: string)
  {
    forall i :: 0 <= i < |s| ==> 'A' <= s[i] <= 'Z' || IsJsWhitespace(s[i])
  }

  lemma {:induction false} CollapseOfUpperIsKeyText(s: string)
    requires UpperOrWhitespace(s)
    ensures forall i :: 0 <= i < |CollapseWhitespace(s)| ==>
      'A' <= CollapseWhitespace(s)[i] <= 'Z' || CollapseWhitespace(s)[i] == '_'
    decreases |s|
  {
    if s != [] {
      if IsJsWhitespace(s[0]) {
        SkipIsSuffix(s[1..]);
        CollapseOfUpperIsKeyText(SkipWhitespace(s[1..]));
      } else {
        CollapseOfUpperIsKeyText(s[1..]);
      }
    }
  }

  lemma {:induction false} SkipIsSuffix(s: string)
    ensures exists j :: 0 <= j <= |s| && SkipWhitespace(s) == s[j..]
  {
    if s != [] && IsJsWhitespace(s[0]) {
      SkipIsSuffix(s[1..]);
      var j :| 0 <= j <= |s[1..]| && SkipWhitespace(s[1..]) == s[1..][j..];
      assert s[1..][j..] == s[j + 1..];
    } else {
      assert s == s[0..];
    }
  }

  /**
   * The derived token-account key of a letters-and-spaces name is a valid
   * `.env` key, so the upsert lemmas apply to it.
   */
  lemma TokenAccountKeyIsEnvKey(name: string)
    requires IsTargetName(name)
    ensures EnvText.IsEnvKey(TokenAccountKey(name))
  {
    var up := ToUpper(name);
    assert UpperOrWhitespace(up);
    CollapseOfUpperIsKeyText(up);
    var c := CollapseWhitespace(up);
    var key := c + "_TOKEN_ACCOUNT";
    forall i | 0 <= i < |key| ensures 'A' <= key[i] <= 'Z' || key[i] == '_' {
      if i < |c| { assert key[i] == c[i]; }
    }
  }

  lemma CollapseKeepsHead(s: string)
    requires |s| >= 2 && !IsJsWhitespace(s[0]) && !IsJsWhitespace(s[1])
    ensures |CollapseWhitespace(s)| >= 2
    ensures CollapseWhitespace(s)[0] == s[0] && CollapseWhitespace(s)[1] == s[1]
  {
    assert s[1..][1..] == s[2..];
    assert CollapseWhitespace(s) == [s[0]] + ([s[1]] + CollapseWhitespace(s[2..]));
  }

  /** A name that starts with two non-space characters keeps them at the head of its key and path. */
  lemma DerivedHead(name: string)
    requires |name| >= 2 && !IsJsWhitespace(name[0]) && !IsJsWhitespace(name[1])
    ensures |TokenAccountKey(name)| >= 2
    ensures TokenAccountKey(name)[0] == UpperChar(name[0]) && TokenAccountKey(name)[1] == UpperChar(name[1])
    ensures |WalletPath(name)| >= 10
    ensures WalletPath(name)[8] == LowerChar(name[0]) && WalletPath(name)[9] == LowerChar(name[1])
  {
    CollapseKeepsHead(ToUpper(name));
    CollapseKeepsHead(ToLower(name));
  }

  /** Two white-space-free words around one space become `word_word`. */
  lemma {:induction false} CollapseSingleSpace(a: string, b: string)
    requires forall i :: 0 <= i < |a| ==> !IsJsWhitespace(a[i])
    requires forall i :: 0 <= i < |b| ==> !IsJsWhitespace(b[i])
    ensures CollapseWhitespace(a + " " + b) == a + "_" + b
    decreases |a|
  {
    if a == [] {
      assert a + " " + b == [' '] + b;
      assert ([' '] + b)[1..] == b;
      assert b == [] || !IsJsWhitespace(b[0]);
      assert SkipWhitespace(b) == b;
      CollapseKeepsPlainText(b);
    } else {
      assert (a + " " + b)[1..] == a[1..] + " " + b;
      CollapseSingleSpace(a[1..], b);
      assert a + "_" + b == [a[0]] + (a[1..] + "_" + b);
    }
  }

  predicate NoWhitespace(s: string)
  {
    forall i :: 0 <= i < |s| ==> !IsJsWhitespace(s[i])
  }

  /** A one-word name keeps its letters: only the case changes. */
  lemma OneWordName(name: string)
    requires NoWhitespace(name)
    ensures TokenAccountKey(name) == ToUpper(name) + "_TOKEN_ACCOUNT"
    ensures WalletPath(name) == "wallets/" + ToLower(name) + ".json"
  {
    CollapseKeepsPlainText(ToUpper(name));
    CollapseKeepsPlainText(ToLower(name));
  }

  /** A two-word name gets one underscore where its space was. */
  lemma TwoWordName(a: string, b: string)
    requires NoWhitespace(a) && NoWhitespace(b)
    ensures TokenAccountKey(a + " " + b) == ToUpper(a) + "_" + ToUpper(b) + "_TOKEN_ACCOUNT"
    ensures WalletPath(a + " " + b) == "wallets/" + ToLower(a) + "_" + ToLower(b) + ".json"
  {
    assert ToUpper(a + " " + b) == ToUpper(a) + " " + ToUpper(b);
    assert ToLower(a + " " + b) == ToLower(a) + " " + ToLower(b);
    CollapseSingleSpace(ToUpper(a), ToUpper(b));
    CollapseSingleSpace(ToLower(a), ToLower(b));
  }
}
