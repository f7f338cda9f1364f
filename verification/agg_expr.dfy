/**
 * Recognition of aggregate expressions `FUNC(arg)` in a field list. The engine
 * uses two regular expressions with `exec`, which finds the leftmost match
 * anywhere in the text: `(\w+)\((\w+)\)` while accumulating groups, and
 * `(\w+)\((\*|\w+)\)` (which also accepts `*`) everywhere else. `Exec` is that
 * search written out; the `star` flag selects the second expression.
 */
module AggExpr {
  import opened Wrappers

  /** The captured function name and argument of a match. */
  datatype Call = Call(func: string, arg: string)

  /** `\w`: an ASCII letter, digit or underscore. */
  predicate IsWordChar(c: char) {
    ('a' <= c <= 'z') || ('A' <= c <= 'Z') || ('0' <= c <= '9') || c == '_'
  }

  predicate IsWord(s: string) {
    |s| > 0 && forall i :: 0 <= i < |s| ==> IsWordChar(s[i])
  }

  /** Length of the run of word characters of `s` starting at `i`. */
  function WordRun(s: string, i: nat): nat
    requires i <= |s|
    decreases |s| - i
  {
    if i < |s| && IsWordChar(s[i]) then 1 + WordRun(s, i + 1) else 0
  }

  /** The run stays inside `s`, consists of word characters and stops at the first other character. */
  lemma {:induction false} WordRunFacts(s: string, i: nat)
    requires i <= |s|
    ensures i + WordRun(s, i) <= |s|
    ensures forall k :: i <= k < i + WordRun(s, i) ==> IsWordChar(s[k])
    ensures i + WordRun(s, i) < |s| ==> !IsWordChar(s[i + WordRun(s, i)])
    decreases |s| - i
  {
    if i < |s| && IsWordChar(s[i]) {
      WordRunFacts(s, i + 1);
    }
  }

  /**
   * The match starting exactly at `i`. Neither `\w+` can give back characters
   * usefully, since what must follow it (`(` or `)`) is not a word character, so
   * each takes its whole run.
   */
  function MatchAt(s: string, i: nat, star: bool): Option<Call>
    requires i <= |s|
  {
    var n := WordRun(s, i);
    if n == 0 || i + n >= |s| || s[i + n] != '(' then None
    else match ArgAt(s, i + n + 1, star)
      case None => None
      case Some(a) => Some(Call(s[i..i + n], a))
  }

  /** The argument and closing `)` starting at `p`, just after the `(`. */
  function ArgAt(s: string, p: nat, star: bool): Option<string>
    requires p <= |s|
  {
    if star && p < |s| && s[p] == '*' then
      if p + 1 < |s| && s[p + 1] == ')' then Some("*") else None
    else
      var m := WordRun(s, p);
      if m > 0 && p + m < |s| && s[p + m] == ')' then Some(s[p..p + m]) else None
  }

  /** The text a call is written as. */
  function Render(c: Call): string {
    c.func + "(" + c.arg + ")"
  }

  /** A call the expression accepts: a word applied to a word, or to `*` when `star` is set. */
  predicate WellFormed(c: Call, star: bool) {
    IsWord(c.func) && (IsWord(c.arg) || (star && c.arg == "*"))
  }

  /** The text at `i` spells out `c`. */
  predicate WrittenAt(s: string, i: nat, c: Call) {
    i + |Render(c)| <= |s| && s[i..i + |Render(c)|] == Render(c)
  }

  /** A match at `i` is a well-formed call written at `i`. */
  lemma MatchAtSound(s: string, i: nat, star: bool)
    requires i <= |s|
    ensures MatchAt(s, i, star).Some? ==>
              WellFormed(MatchAt(s, i, star).value, star) && WrittenAt(s, i, MatchAt(s, i, star).value)
  {
    var n := WordRun(s, i);
    if n > 0 && i + n < |s| && s[i + n] == '(' {
      var j := i + n;
      ArgAtSound(s, j + 1, star);
      if ArgAt(s, j + 1, star).Some? {
        var a := ArgAt(s, j + 1, star).value;
        var c := Call(s[i..j], a);
        assert MatchAt(s, i, star) == Some(c);
        RunIsWord(s, i);
        assert WellFormed(c, star);
        SpanWritten(s, i, j, j + 1 + |a|);
        assert c == Call(s[i..j], s[j + 1..j + 1 + |a|]);
      } else {
        assert MatchAt(s, i, star).None?;
      }
    } else {
      assert MatchAt(s, i, star).None?;
    }
  }

  /** An argument found at `p` is a word (or `*`) followed by `)`. */
  lemma ArgAtSound(s: string, p: nat, star: bool)
    requires p <= |s|
    ensures ArgAt(s, p, star).Some? ==>
              var a := ArgAt(s, p, star).value;
              (IsWord(a) || (star && a == "*")) && p + |a| < |s| && s[p..p + |a|] == a && s[p + |a|] == ')'
  {
    if star && p < |s| && s[p] == '*' {
      assert s[p..p + 1] == "*";
    } else if WordRun(s, p) > 0 {
      RunIsWord(s, p);
    }
  }

  /** A non-empty run of word characters is a word. */
  lemma RunIsWord(s: string, i: nat)
    requires i <= |s| && WordRun(s, i) > 0
    ensures i + WordRun(s, i) <= |s| && IsWord(s[i..i + WordRun(s, i)])
  {
    WordRunFacts(s, i);
    var w := s[i..i + WordRun(s, i)];
    assert forall x :: 0 <= x < |w| ==> w[x] == s[i + x];
  }

  /** With `(` at `j` and `)` at `k`, the text from `i` to `k` spells out the call `s[i..j](s[j+1..k])`. */
  lemma SpanWritten(s: string, i: nat, j: nat, k: nat)
    requires i <= j < k < |s| && s[j] == '(' && s[k] == ')'
    ensures WrittenAt(s, i, Call(s[i..j], s[j + 1..k]))
  {
    var r := Render(Call(s[i..j], s[j + 1..k]));
    assert |r| == k + 1 - i;
    forall x | 0 <= x < |r| ensures s[i..k + 1][x] == r[x] {
    }
    assert s[i..k + 1] == r;
  }

  /** Conversely, a well-formed call written at `i` is the match at `i`. */
  lemma MatchAtIs(s: string, i: nat, star: bool, c: Call)
    requires WellFormed(c, star) && WrittenAt(s, i, c)
    ensures MatchAt(s, i, star) == Some(c)
  {
    var j := i + |c.func|;
    WrittenParts(s, i, c);
    WordRunIs(s, i, |c.func|);
    ArgAtIs(s, j + 1, star, c.arg);
  }

  /** An argument written at `p` and closed by `)` is the argument found at `p`. */
  lemma ArgAtIs(s: string, p: nat, star: bool, a: string)
    requires IsWord(a) || (star && a == "*")
    requires p + |a| < |s| && s[p..p + |a|] == a && s[p + |a|] == ')'
    ensures ArgAt(s, p, star) == Some(a)
  {
    if a == "*" {
      assert s[p] == a[0];
    } else {
      assert forall k :: p <= k < p + |a| ==> s[k] == a[k - p];
      WordRunIs(s, p, |a|);
    }
  }

  /** The characters of a call written at `i`, part by part. */
  lemma WrittenParts(s: string, i: nat, c: Call)
    requires WrittenAt(s, i, c)
    ensures forall p :: i <= p < i + |c.func| ==> s[p] == c.func[p - i]
    ensures s[i + |c.func|] == '('
    ensures forall p :: i + |c.func| + 1 <= p < i + |c.func| + 1 + |c.arg| ==> s[p] == c.arg[p - i - |c.func| - 1]
    ensures s[i + |c.func| + 1 + |c.arg|] == ')'
    ensures s[i..i + |c.func|] == c.func
    ensures s[i + |c.func| + 1..i + |c.func| + 1 + |c.arg|] == c.arg
  {
    var r := Render(c);
    assert forall p :: i <= p < i + |r| ==> s[p] == r[p - i];
  }

  /** The match at every position of `s`, end of text included. */
  function Matches(s: string, star: bool): (ms: seq<Option<Call>>)
    ensures |ms| == |s| + 1
  {
    seq(|s| + 1, p requires 0 <= p <= |s| => MatchAt(s, p, star))
  }

  /** The first present element of `ms` at or after `i`. */
  function FirstSome<T>(ms: seq<Option<T>>, i: nat): Option<T>
    requires i <= |ms|
    decreases |ms| - i
  {
    if i == |ms| then None else if ms[i].Some? then ms[i] else FirstSome(ms, i + 1)
  }

  /** `FirstSome` is the element at the first position that holds one, and nothing if none does. */
  lemma {:induction false} FirstSomeLeftmost<T>(ms: seq<Option<T>>, i: nat)
    requires i <= |ms|
    ensures FirstSome(ms, i).Some? ==>
              exists p :: i <= p < |ms| && ms[p] == FirstSome(ms, i) && forall q :: i <= q < p ==> ms[q].None?
    ensures FirstSome(ms, i).None? <==> forall p :: i <= p < |ms| ==> ms[p].None?
    decreases |ms| - i
  {
    if i < |ms| && ms[i].None? {
      FirstSomeLeftmost(ms, i + 1);
      if FirstSome(ms, i).Some? {
        var p :| i + 1 <= p < |ms| && ms[p] == FirstSome(ms, i) && forall q :: i + 1 <= q < p ==> ms[q].None?;
        assert forall q :: i <= q < p ==> ms[q].None?;
      }
    }
  }

  /** `re.exec(s)` reduced to its two capture groups: the leftmost match. */
  function Exec(s: string, star: bool): Option<Call> {
    FirstSome(Matches(s, star), 0)
  }

  /** `Exec` returns the match at the first position that has one, and nothing if none has. */
  lemma ExecLeftmost(s: string, star: bool)
    ensures Exec(s, star).Some? ==>
              exists p :: 0 <= p <= |s| && MatchAt(s, p, star) == Exec(s, star) &&
                          forall q :: 0 <= q < p ==> MatchAt(s, q, star).None?
    ensures Exec(s, star).None? <==> forall p :: 0 <= p <= |s| ==> MatchAt(s, p, star).None?
  {
    var ms := Matches(s, star);
    FirstSomeLeftmost(ms, 0);
    assert forall p :: 0 <= p <= |s| ==> ms[p] == MatchAt(s, p, star);
  }

  /**
   * `toUpperCase` on the word characters a function name can contain: no
   * lower-case letter is left, each one becomes the capital at the same place
   * in the alphabet, and every other character is kept.
   */
  function Upper(s: string): (u: string)
    ensures |u| == |s|
    ensures forall i :: 0 <= i < |u| ==> !('a' <= u[i] <= 'z')
    ensures forall i :: 0 <= i < |s| && 'a' <= s[i] <= 'z' ==>
              'A' <= u[i] <= 'Z' && u[i] as int - 'A' as int == s[i] as int - 'a' as int
    ensures forall i :: 0 <= i < |s| && !('a' <= s[i] <= 'z') ==> u[i] == s[i]
  {
    seq(|s|, i requires 0 <= i < |s| => if 'a' <= s[i] <= 'z' then (s[i] as int - 32) as char else s[i])
  }

  /** An expression written exactly as `FUNC(arg)` is found, with both parts, by either expression. */
  lemma ExecRender(c: Call, star: bool)
    requires IsWord(c.func) && IsWord(c.arg)
    ensures Exec(Render(c), star) == Some(c)
  {
    MatchAtIs(Render(c), 0, star, c);
  }

  /** `FUNC(*)` is found only by the expression that accepts `*`. */
  lemma ExecStar(f: string)
    requires IsWord(f)
    ensures Exec(f + "(*)", true) == Some(Call(f, "*"))
    ensures Exec(f + "(*)", false).None?
  {
    assert Render(Call(f, "*")) == f + "(*)";
    MatchAtIs(f + "(*)", 0, true, Call(f, "*"));
    NoPlainMatch(f);
    ExecLeftmost(f + "(*)", false);
  }

  lemma NoPlainMatch(f: string)
    requires IsWord(f)
    ensures forall p :: 0 <= p <= |f + "(*)"| ==> MatchAt(f + "(*)", p, false).None?
  {
    var s := f + "(*)";
    var n := |f|;
    assert s[n] == '(' && s[n + 1] == '*' && s[n + 2] == ')';
    forall p | 0 <= p <= |s|
      ensures MatchAt(s, p, false).None?
    {
      if p < n {
        assert forall k :: p <= k < n ==> s[k] == f[k];
        WordRunIs(s, p, n - p);
        WordRunIs(s, n + 1, 0);
      } else if p < |s| {
        WordRunIs(s, p, 0);
      }
    }
  }

  /** The run of word characters at `i` has length `n` when `s[i..i+n]` is a word and is followed by a non-word character. */
  lemma WordRunIs(s: string, i: nat, n: nat)
    requires i + n < |s|
    requires forall k :: i <= k < i + n ==> IsWordChar(s[k])
    requires !IsWordChar(s[i + n])
    ensures WordRun(s, i) == n
    decreases n
  {
    if n > 0 {
      WordRunIs(s, i + 1, n - 1);
    }
  }

  /** A plain column name, with no `(`, is never taken for an aggregate. */
  lemma ExecNeedsParen(s: string, star: bool)
    requires forall i :: 0 <= i < |s| ==> s[i] != '('
    ensures Exec(s, star).None?
  {
    forall p | 0 <= p <= |s| ensures MatchAt(s, p, star).None? {
    }
    ExecLeftmost(s, star);
  }

  /** A name is its own upper case exactly when it has no lower-case letter. */
  lemma UpperFixed(s: string)
    ensures Upper(s) == s <==> forall i :: 0 <= i < |s| ==> !('a' <= s[i] <= 'z')
  {
    if Upper(s) == s {
      forall i | 0 <= i < |s| ensures !('a' <= s[i] <= 'z') {
        assert Upper(s)[i] == s[i];
      }
    }
  }

  /** Raising the case twice is raising it once. */
  lemma UpperIdempotent(s: string)
    ensures Upper(Upper(s)) == Upper(s)
  {
    UpperFixed(Upper(s));
  }
}
