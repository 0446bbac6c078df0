/** A model of parseIntegerFromMobile, the lenient parser the game applies to the
    text of its guess field: trim, delete the no-break spaces, replace the first
    comma by a dot, take the first match of the regular expression -?\d+ and read
    it with parseInt in base 10.  "Not a number" is None.

    Beside the model stands a reference definition, FirstInteger: the first maximal
    run of ASCII digits, negated exactly when a '-' immediately precedes it.  The
    main theorem says that the parser is FirstInteger applied to the text with its
    no-break spaces deleted: trimming and the comma step never change the result. */
module MobileInput {

  datatype Option<T> = None | Some(value: T)

  // ---------------------------------------------------------------------------
  // Characters
  // ---------------------------------------------------------------------------

  /** \d in a regular expression without the u flag: the ASCII digits only. */
  predicate IsDigit(c: char) {
    '0' <= c <= '9'
  }

  function DigitValue(c: char): (d: nat)
    requires IsDigit(c)
    ensures d < 10
  {
    (c as int) - ('0' as int)
  }

  function DigitChar(d: nat): (c: char)
    requires d < 10
    ensures IsDigit(c) && DigitValue(c) == d
  {
    (('0' as int) + d) as char
  }

  /** The characters String.prototype.trim strips: ECMAScript WhiteSpace
      (tab, vertical tab, form feed, space, U+00A0, U+FEFF and the other Zs
      characters) and LineTerminator (LF, CR, U+2028, U+2029). */
  predicate IsTrimmable(c: char) {
    if c <= ' ' then c == ' ' || '\t' <= c <= '\r'
    else
      c == '\U{00A0}' || c == '\U{1680}' || '\U{2000}' <= c <= '\U{200A}'
      || c == '\U{2028}' || c == '\U{2029}' || c == '\U{202F}' || c == '\U{205F}'
      || c == '\U{3000}' || c == '\U{FEFF}'
  }

  lemma TrimmableIsNeutral(s: string)
    requires forall i :: 0 <= i < |s| ==> IsTrimmable(s[i])
    ensures AllNeutral(s)
  {
    forall i | 0 <= i < |s| ensures IsNeutral(s[i]) {
      assert IsTrimmable(s[i]);
    }
  }

  /** The two characters the regular expression /\u00A0|\u202F/g deletes. */
  predicate IsNoBreakSpace(c: char) {
    c == '\U{00A0}' || c == '\U{202F}'
  }

  /** A character that neither starts nor continues a match of -?\d+. */
  predicate IsNeutral(c: char) {
    !IsDigit(c) && c != '-'
  }

  predicate AllDigits(s: string) {
    forall i :: 0 <= i < |s| ==> IsDigit(s[i])
  }

  predicate AllNeutral(s: string) {
    forall i :: 0 <= i < |s| ==> IsNeutral(s[i])
  }

  predicate NoDigit(s: string) {
    forall i :: 0 <= i < |s| ==> !IsDigit(s[i])
  }

  // ---------------------------------------------------------------------------
  // The string steps of the parser
  // ---------------------------------------------------------------------------

  /** The number of trimmable characters at the start of s. */
  function LeadingTrimmable(s: string): (k: nat)
    ensures k <= |s|
    ensures forall i :: 0 <= i < k ==> IsTrimmable(s[i])
    ensures k < |s| ==> !IsTrimmable(s[k])
  {
    if s != [] && IsTrimmable(s[0]) then
      var k := LeadingTrimmable(s[1..]);
      assert forall i :: 1 <= i < |s| ==> s[i] == s[1..][i - 1];
      1 + k
    else 0
  }

  /** The number of trimmable characters at the end of s. */
  function TrailingTrimmable(s: string): (k: nat)
    ensures k <= |s|
    ensures forall i :: |s| - k <= i < |s| ==> IsTrimmable(s[i])
    ensures k < |s| ==> !IsTrimmable(s[|s| - 1 - k])
  {
    if s != [] && IsTrimmable(s[|s| - 1]) then
      var k := TrailingTrimmable(s[..|s| - 1]);
      assert forall i :: 0 <= i < |s| - 1 ==> s[i] == s[..|s| - 1][i];
      1 + k
    else 0
  }

  /** String.prototype.trim: the text from the first to the last character that
      is not trimmable, or "" when there is none. */
  function Trim(s: string): (r: string)
    ensures var a := LeadingTrimmable(s);
      a + |r| <= |s| && r == s[a..a + |r|]
      && (forall i :: a + |r| <= i < |s| ==> IsTrimmable(s[i]))
    ensures r != [] ==> !IsTrimmable(r[0]) && !IsTrimmable(r[|r| - 1])
  {
    var a := LeadingTrimmable(s);
    if a == |s| then []
    else
      var b := |s| - TrailingTrimmable(s);
      assert a < b by { assert !IsTrimmable(s[a]); }
      s[a..b]
  }

  lemma NoDigitAppend(a: string, b: string)
    ensures NoDigit(a + b) <==> NoDigit(a) && NoDigit(b)
    ensures AllNeutral(a + b) <==> AllNeutral(a) && AllNeutral(b)
  {
    var s := a + b;
    assert forall i :: 0 <= i < |a| ==> a[i] == s[i];
    assert forall i :: 0 <= i < |b| ==> b[i] == s[|a| + i];
    assert forall i :: |a| <= i < |s| ==> s[i] == b[i - |a|];
  }

  /** s.replace(/\u00A0|\u202F/g, ''): every U+00A0 and U+202F deleted, the
      other characters kept in their order. */
  function DeleteNoBreakSpaces(s: string): (r: string)
    ensures |r| <= |s|
    ensures forall i :: 0 <= i < |r| ==> !IsNoBreakSpace(r[i])
  {
    if s == [] then []
    else (if IsNoBreakSpace(s[0]) then [] else [s[0]]) + DeleteNoBreakSpaces(s[1..])
  }

  /** The text has a digit after the deletion exactly when it had one before, and
      a text with no digit and no '-' still has none after it. */
  lemma {:induction false} DeleteKeepsDigits(s: string)
    ensures NoDigit(DeleteNoBreakSpaces(s)) <==> NoDigit(s)
    ensures AllNeutral(s) ==> AllNeutral(DeleteNoBreakSpaces(s))
  {
    if s != [] {
      var head := if IsNoBreakSpace(s[0]) then [] else [s[0]];
      DeleteKeepsDigits(s[1..]);
      NoDigitAppend([s[0]], s[1..]);
      NoDigitAppend(head, DeleteNoBreakSpaces(s[1..]));
      assert [s[0]] + s[1..] == s;
    }
  }

  /** The index of the first ',' in s, or |s| when there is none (indexOf). */
  function IndexOfComma(s: string): (k: nat)
    ensures k <= |s|
    ensures forall j :: 0 <= j < k ==> s[j] != ','
    ensures k < |s| ==> s[k] == ','
  {
    if s == [] || s[0] == ',' then 0 else 1 + IndexOfComma(s[1..])
  }

  /** s.replace(',', '.'): a string pattern, so only the first comma becomes a dot. */
  function ReplaceFirstComma(s: string): (r: string)
    ensures |r| == |s|
    ensures forall i :: 0 <= i < |s| ==> r[i] == if i == IndexOfComma(s) then '.' else s[i]
  {
    var k := IndexOfComma(s);
    if k == |s| then s else s[..k] + "." + s[k + 1..]
  }

  // ---------------------------------------------------------------------------
  // The regular expression -?\d+ and parseInt
  // ---------------------------------------------------------------------------

  /** The index of the first digit at or after i, or |s| when there is none. */
  function FirstDigitFrom(s: string, i: nat): (k: nat)
    requires i <= |s|
    ensures i <= k <= |s|
    ensures forall j :: i <= j < k ==> !IsDigit(s[j])
    ensures k < |s| ==> IsDigit(s[k])
    decreases |s| - i
  {
    if i == |s| || IsDigit(s[i]) then i else FirstDigitFrom(s, i + 1)
  }

  /** The end of the digit run that starts at i: \d+ (or \d*) taken greedily. */
  function DigitRunEnd(s: string, i: nat): (k: nat)
    requires i <= |s|
    ensures i <= k <= |s|
    ensures AllDigits(s[i..k])
    ensures k < |s| ==> !IsDigit(s[k])
    decreases |s| - i
  {
    if i == |s| || !IsDigit(s[i]) then i
    else
      var k := DigitRunEnd(s, i + 1);
      assert s[i..k] == [s[i]] + s[i + 1..k];
      k
  }

  /** -?\d+ matches at index i: the greedy -? takes a '-' that a digit follows;
      otherwise it backtracks to the empty string and \d+ needs a digit at i. */
  predicate PatternMatchesAt(s: string, i: nat)
    requires i < |s|
  {
    IsDigit(s[i]) || (s[i] == '-' && i + 1 < |s| && IsDigit(s[i + 1]))
  }

  /** The leftmost index at or after i where -?\d+ matches, or |s|. */
  function LeftmostMatchFrom(s: string, i: nat): (k: nat)
    requires i <= |s|
    ensures i <= k <= |s|
    ensures forall j :: i <= j < k ==> !PatternMatchesAt(s, j)
    ensures k < |s| ==> PatternMatchesAt(s, k)
    decreases |s| - i
  {
    if i == |s| || PatternMatchesAt(s, i) then i else LeftmostMatchFrom(s, i + 1)
  }

  /** A string of the form -?\d+. */
  predicate IsSignedInteger(t: string) {
    |t| >= 1 && if t[0] == '-' then |t| >= 2 && AllDigits(t[1..]) else AllDigits(t)
  }

  /** s.match(/-?\d+/)[0]: the text of the leftmost match, or None for null. */
  function MatchSignedInteger(s: string): (m: Option<string>)
    ensures m.Some? ==> IsSignedInteger(m.value)
  {
    var k := LeftmostMatchFrom(s, 0);
    if k == |s| then None
    else
      var d := if s[k] == '-' then k + 1 else k;
      var e := DigitRunEnd(s, d);
      assert e > d;
      var t := s[k..e];
      assert s[k] == '-' ==> t[1..] == s[d..e];
      assert s[k] != '-' ==> t == s[d..e];
      assert IsDigit(s[d]);
      Some(t)
  }

  /** match returns null exactly when the text holds no ASCII digit. */
  lemma MatchNoneIffNoDigit(s: string)
    ensures MatchSignedInteger(s).None? <==> NoDigit(s)
  {
    var k := LeftmostMatchFrom(s, 0);
    if k == |s| {
      forall j | 0 <= j < |s| ensures !IsDigit(s[j]) {
        assert !PatternMatchesAt(s, j);
      }
    } else {
      assert s[k] == '-' ==> IsDigit(s[k + 1]);
    }
  }

  /** The decimal value of a digit string, most significant digit first. */
  function DecimalValue(ds: string): nat
    requires AllDigits(ds)
  {
    if ds == [] then 0 else 10 * DecimalValue(ds[..|ds| - 1]) + DigitValue(ds[|ds| - 1])
  }

  /** parseInt(t, 10) for a string t of the form -?\d+. */
  function ParseIntDecimal(t: string): int
    requires IsSignedInteger(t)
  {
    var v: int := if t[0] == '-' then DecimalValue(t[1..]) else DecimalValue(t);
    if t[0] == '-' then -v else v
  }

  /** The value of the first match of -?\d+, or None when there is no match. */
  function FirstMatchValue(s: string): Option<int> {
    match MatchSignedInteger(s)
    case None => None
    case Some(t) => Some(ParseIntDecimal(t))
  }

  /** parseIntegerFromMobile: None for empty input, otherwise the first integer
      of the trimmed text without no-break spaces and with its first comma a dot. */
  function ParseIntegerFromMobile(raw: string): Option<int> {
    if raw == [] then None
    else FirstMatchValue(ReplaceFirstComma(DeleteNoBreakSpaces(Trim(raw))))
  }

  // ---------------------------------------------------------------------------
  // The reference definition and the theorems
  // ---------------------------------------------------------------------------

  /** The first maximal run of ASCII digits, negated iff a '-' immediately
      precedes it; None when the text holds no digit. */
  function FirstInteger(s: string): Option<int> {
    var j := FirstDigitFrom(s, 0);
    if j == |s| then None
    else
      var v: int := DecimalValue(s[j..DigitRunEnd(s, j)]);
      Some(if j > 0 && s[j - 1] == '-' then -v else v)
  }

  /** There is no first integer exactly when the text holds no ASCII digit. */
  lemma FirstIntegerNoneIffNoDigit(s: string)
    ensures FirstInteger(s).None? <==> NoDigit(s)
  {
    if FirstDigitFrom(s, 0) < |s| {
      assert IsDigit(s[FirstDigitFrom(s, 0)]);
    }
  }

  /** The regular-expression match read by parseInt is the reference definition. */
  lemma FirstMatchIsFirstInteger(s: string)
    ensures FirstMatchValue(s) == FirstInteger(s)
  {
    var j := FirstDigitFrom(s, 0);
    if j < |s| {
      var neg := j > 0 && s[j - 1] == '-';
      var k := LeftmostMatchAtRun(s, j);
      var e := DigitRunEnd(s, j);
      var t, ds := s[k..e], s[j..e];
      assert MatchSignedInteger(s) == Some(t);
      if neg {
        assert t[0] == '-' && t[1..] == ds;
      } else {
        assert t == ds && t[0] == s[j];
      }
      assert ParseIntDecimal(t) == if neg then -(DecimalValue(ds) as int) else DecimalValue(ds);
      FirstIntegerUnfold(s, j, e, ds, neg);
    }
  }

  /** The leftmost match of -?\d+ starts at the first digit, or at the '-' just
      before it. */
  lemma LeftmostMatchAtRun(s: string, j: nat) returns (k: nat)
    requires j == FirstDigitFrom(s, 0) < |s|
    ensures k == LeftmostMatchFrom(s, 0)
    ensures k == if j > 0 && s[j - 1] == '-' then j - 1 else j
  {
    k := if j > 0 && s[j - 1] == '-' then j - 1 else j;
    forall i | 0 <= i < k ensures !PatternMatchesAt(s, i) {
      assert !IsDigit(s[i]);
      assert i + 1 < j || (i + 1 == j && s[i] != '-');
    }
    assert PatternMatchesAt(s, k);
  }

  /** Two texts have the same shape when they agree wherever either holds a
      digit or a '-'; elsewhere they may differ. */
  predicate SameShape(s: string, t: string) {
    |s| == |t| && forall i :: 0 <= i < |s| ==> (IsNeutral(s[i]) && IsNeutral(t[i])) || s[i] == t[i]
  }

  lemma {:induction false} FirstDigitFromSameShape(s: string, t: string, i: nat)
    requires SameShape(s, t) && i <= |s|
    ensures FirstDigitFrom(s, i) == FirstDigitFrom(t, i)
    decreases |s| - i
  {
    if i < |s| && !IsDigit(s[i]) {
      FirstDigitFromSameShape(s, t, i + 1);
    }
  }

  lemma {:induction false} DigitRunEndSameShape(s: string, t: string, i: nat)
    requires SameShape(s, t) && i <= |s|
    ensures DigitRunEnd(s, i) == DigitRunEnd(t, i)
    decreases |s| - i
  {
    if i < |s| && IsDigit(s[i]) {
      DigitRunEndSameShape(s, t, i + 1);
    }
  }

  /** The result depends only on the digits and the '-' signs and where they stand. */
  lemma FirstIntegerSameShape(s: string, t: string)
    requires SameShape(s, t)
    ensures FirstInteger(s) == FirstInteger(t)
  {
    FirstDigitFromSameShape(s, t, 0);
    var j := FirstDigitFrom(s, 0);
    if j < |s| {
      DigitRunEndSameShape(s, t, j);
      var e := DigitRunEnd(s, j);
      assert s[j..e] == t[j..e];
      assert j > 0 ==> (s[j - 1] == '-' <==> t[j - 1] == '-');
    }
  }

  lemma SliceAfterPrefix(p: string, m: string, i: nat, k: nat)
    requires i <= k <= |m|
    ensures (p + m)[|p| + i..|p| + k] == m[i..k]
  {
    var s := p + m;
    assert |s[|p| + i..|p| + k]| == k - i;
    forall x | 0 <= x < k - i ensures s[|p| + i..|p| + k][x] == m[i..k][x] {
      assert s[|p| + i + x] == m[i + x];
    }
  }

  lemma {:induction false} FirstDigitFromShift(p: string, m: string, i: nat)
    requires i <= |m|
    ensures FirstDigitFrom(p + m, |p| + i) == |p| + FirstDigitFrom(m, i)
    decreases |m| - i
  {
    if i < |m| {
      assert (p + m)[|p| + i] == m[i];
      if !IsDigit(m[i]) {
        FirstDigitFromShift(p, m, i + 1);
      }
    }
  }

  lemma {:induction false} FirstDigitFromSkips(p: string, m: string, i: nat)
    requires NoDigit(p) && i <= |p|
    ensures FirstDigitFrom(p + m, i) == FirstDigitFrom(p + m, |p|)
    decreases |p| - i
  {
    if i < |p| {
      assert (p + m)[i] == p[i];
      FirstDigitFromSkips(p, m, i + 1);
    }
  }

  lemma {:induction false} DigitRunEndShift(p: string, m: string, i: nat)
    requires i <= |m|
    ensures DigitRunEnd(p + m, |p| + i) == |p| + DigitRunEnd(m, i)
    decreases |m| - i
  {
    if i < |m| {
      assert (p + m)[|p| + i] == m[i];
      if IsDigit(m[i]) {
        DigitRunEndShift(p, m, i + 1);
      }
    }
  }

  /** FirstInteger once its first digit j, the run end e, the run ds and the sign
      neg are known. */
  lemma FirstIntegerUnfold(s: string, j: nat, e: nat, ds: string, neg: bool)
    requires j < |s| && FirstDigitFrom(s, 0) == j && DigitRunEnd(s, j) == e
    requires ds == s[j..e] && (neg <==> j > 0 && s[j - 1] == '-')
    ensures AllDigits(ds)
    ensures FirstInteger(s) == Some(if neg then -(DecimalValue(ds) as int) else DecimalValue(ds))
  {
  }

  /** Where the first integer of p + m lies, for p without digits: its digit run
      is the one of m, moved by |p|. */
  lemma FirstRunAfterPrefix(p: string, m: string, j: nat, e: nat)
    requires NoDigit(p)
    requires j == FirstDigitFrom(m, 0) < |m| && e == DigitRunEnd(m, j)
    ensures FirstDigitFrom(p + m, 0) == |p| + j
    ensures DigitRunEnd(p + m, |p| + j) == |p| + e
    ensures (p + m)[|p| + j..|p| + e] == m[j..e]
  {
    FirstDigitFromSkips(p, m, 0);
    FirstDigitFromShift(p, m, 0);
    DigitRunEndShift(p, m, j);
    SliceAfterPrefix(p, m, j, e);
  }

  /** Characters before the text that are neither digits nor '-' change nothing. */
  lemma NeutralPrefix(p: string, m: string)
    requires AllNeutral(p)
    ensures FirstInteger(p + m) == FirstInteger(m)
  {
    var s := p + m;
    assert NoDigit(p);
    var j := FirstDigitFrom(m, 0);
    if j < |m| {
      var e := DigitRunEnd(m, j);
      FirstRunAfterPrefix(p, m, j, e);
      var neg := j > 0 && m[j - 1] == '-';
      assert neg <==> |p| + j > 0 && s[|p| + j - 1] == '-' by {
        if j > 0 {
          assert s[|p| + j - 1] == m[j - 1];
        } else if |p| > 0 {
          assert s[|p| - 1] == p[|p| - 1];
        }
      }
      FirstIntegerUnfold(s, |p| + j, |p| + e, m[j..e], neg);
      FirstIntegerUnfold(m, j, e, m[j..e], neg);
    } else {
      FirstDigitFromSkips(p, m, 0);
      FirstDigitFromShift(p, m, 0);
    }
  }

  lemma SliceBeforeSuffix(m: string, q: string, i: nat, k: nat)
    requires i <= k <= |m|
    ensures (m + q)[i..k] == m[i..k]
  {
    var s := m + q;
    assert |s[i..k]| == k - i;
    forall x | 0 <= x < k - i ensures s[i..k][x] == m[i..k][x] {
      assert s[i + x] == m[i + x];
    }
  }

  /** Where the first integer of m + q lies, for q without digits: it is the
      one of m. */
  lemma FirstRunBeforeSuffix(m: string, q: string, j: nat, e: nat)
    requires NoDigit(q)
    requires j == FirstDigitFrom(m, 0) < |m| && e == DigitRunEnd(m, j)
    ensures FirstDigitFrom(m + q, 0) == j
    ensures DigitRunEnd(m + q, j) == e
    ensures (m + q)[j..e] == m[j..e]
  {
    var s := m + q;
    assert forall i :: 0 <= i < |m| ==> s[i] == m[i];
    assert e < |s| ==> !IsDigit(s[e]) by {
      if e == |m| && e < |s| { assert s[e] == q[0]; }
    }
    SliceBeforeSuffix(m, q, j, e);
  }

  /** Characters after the text that are neither digits nor '-' change nothing. */
  lemma NeutralSuffix(m: string, q: string)
    requires AllNeutral(q)
    ensures FirstInteger(m + q) == FirstInteger(m)
  {
    var s := m + q;
    assert NoDigit(q);
    var j := FirstDigitFrom(m, 0);
    if j < |m| {
      var e := DigitRunEnd(m, j);
      FirstRunBeforeSuffix(m, q, j, e);
      var neg := j > 0 && m[j - 1] == '-';
      assert j > 0 ==> s[j - 1] == m[j - 1];
      FirstIntegerUnfold(s, j, e, m[j..e], neg);
      FirstIntegerUnfold(m, j, e, m[j..e], neg);
    } else {
      forall i | 0 <= i < |s| ensures !IsDigit(s[i]) {
        if i < |m| { assert s[i] == m[i]; } else { assert s[i] == q[i - |m|]; }
      }
    }
  }

  function KeptPart(c: char): string {
    if IsNoBreakSpace(c) then [] else [c]
  }

  lemma DeleteNoBreakSpacesCons(c: char, t: string)
    ensures DeleteNoBreakSpaces([c] + t) == KeptPart(c) + DeleteNoBreakSpaces(t)
  {
    var s := [c] + t;
    assert s[0] == c && s[1..] == t;
  }

  lemma {:induction false} DeleteNoBreakSpacesAppend(a: string, b: string)
    ensures DeleteNoBreakSpaces(a + b) == DeleteNoBreakSpaces(a) + DeleteNoBreakSpaces(b)
  {
    if a != [] {
      var c, t := a[0], a[1..];
      assert a == [c] + t && a + b == [c] + (t + b);
      DeleteNoBreakSpacesCons(c, t + b);
      DeleteNoBreakSpacesCons(c, t);
      DeleteNoBreakSpacesAppend(t, b);
      assert KeptPart(c) + (DeleteNoBreakSpaces(t) + DeleteNoBreakSpaces(b))
          == (KeptPart(c) + DeleteNoBreakSpaces(t)) + DeleteNoBreakSpaces(b);
    } else {
      assert a + b == b;
    }
  }

  /** Neutral characters on both sides change nothing. */
  lemma NeutralAround(p: string, m: string, q: string)
    requires AllNeutral(p) && AllNeutral(q)
    ensures FirstInteger(p + m + q) == FirstInteger(m)
  {
    assert p + m + q == p + (m + q);
    NeutralPrefix(p, m + q);
    NeutralSuffix(m, q);
  }

  /** Trimming changes nothing: the characters it drops are neutral. */
  lemma TrimIsIrrelevant(raw: string)
    ensures FirstInteger(DeleteNoBreakSpaces(Trim(raw))) == FirstInteger(DeleteNoBreakSpaces(raw))
  {
    var t := Trim(raw);
    var a := LeadingTrimmable(raw);
    var pre, post := raw[..a], raw[a + |t|..];
    assert raw == pre + t + post;
    TrimmableIsNeutral(pre);
    TrimmableIsNeutral(post);
    DeleteKeepsDigits(pre);
    DeleteKeepsDigits(post);
    DeleteNoBreakSpacesAppend(pre + t, post);
    DeleteNoBreakSpacesAppend(pre, t);
    NeutralAround(DeleteNoBreakSpaces(pre), DeleteNoBreakSpaces(t), DeleteNoBreakSpaces(post));
  }

  /** Replacing the first comma by a dot changes nothing: both are neutral. */
  lemma CommaStepIsIrrelevant(s: string)
    ensures FirstInteger(ReplaceFirstComma(s)) == FirstInteger(s)
  {
    FirstIntegerSameShape(ReplaceFirstComma(s), s);
  }

  /** The parser is the first integer of the text with its no-break spaces
      deleted; the empty text, like any text without a digit, is None. */
  lemma ParseIsFirstInteger(raw: string)
    ensures ParseIntegerFromMobile(raw) == FirstInteger(DeleteNoBreakSpaces(raw))
  {
    if raw != [] {
      var s := DeleteNoBreakSpaces(Trim(raw));
      FirstMatchIsFirstInteger(ReplaceFirstComma(s));
      CommaStepIsIrrelevant(s);
      TrimIsIrrelevant(raw);
    }
  }

  /** "Not a number" exactly when the text holds no ASCII digit. */
  lemma ParseNoneIffNoDigit(raw: string)
    ensures ParseIntegerFromMobile(raw).None? <==> NoDigit(raw)
  {
    ParseIsFirstInteger(raw);
    DeleteKeepsDigits(raw);
    FirstIntegerNoneIffNoDigit(DeleteNoBreakSpaces(raw));
  }

  /** The converse reading of FirstInteger: when the first digit stands at j and
      its maximal run ends at e, the result is the value of s[j..e], negated iff
      s[j - 1] is '-'. */
  lemma FirstIntegerAt(s: string, j: nat, e: nat)
    requires j < e <= |s|
    requires NoDigit(s[..j]) && AllDigits(s[j..e]) && (e < |s| ==> !IsDigit(s[e]))
    ensures FirstInteger(s) == Some(
      if j > 0 && s[j - 1] == '-' then -(DecimalValue(s[j..e]) as int) else DecimalValue(s[j..e]))
  {
    var k := FirstDigitFrom(s, 0);
    assert IsDigit(s[j]) by { assert s[j] == s[j..e][0]; }
    assert forall i :: 0 <= i < j ==> s[i] == s[..j][i];
    assert k == j;
    var f := DigitRunEnd(s, j);
    assert forall i :: j <= i < e ==> s[i] == s[j..e][i - j];
    assert forall i :: j <= i < f ==> s[i] == s[j..f][i - j];
    assert f == e;
    FirstIntegerUnfold(s, j, e, s[j..e], j > 0 && s[j - 1] == '-');
  }

  // ---------------------------------------------------------------------------
  // Decimal notation: the text a player types for a number
  // ---------------------------------------------------------------------------

  /** The decimal digits of n, without leading zeros. */
  function DecimalDigits(n: nat): (ds: string)
    ensures |ds| >= 1 && AllDigits(ds)
  {
    if n < 10 then [DigitChar(n)] else DecimalDigits(n / 10) + [DigitChar(n % 10)]
  }

  /** The decimal notation of an integer, with a '-' when it is negative. */
  function DecimalString(n: int): string {
    if n < 0 then ['-'] + DecimalDigits(-n) else DecimalDigits(n)
  }

  lemma {:induction false} DecimalValueOfDigits(n: nat)
    ensures DecimalValue(DecimalDigits(n)) == n
  {
    if n >= 10 {
      var ds := DecimalDigits(n);
      assert ds[..|ds| - 1] == DecimalDigits(n / 10);
      DecimalValueOfDigits(n / 10);
    }
  }

  lemma {:induction false} DeleteKeepsPlainText(s: string)
    requires forall i :: 0 <= i < |s| ==> !IsNoBreakSpace(s[i])
    ensures DeleteNoBreakSpaces(s) == s
  {
    if s != [] {
      DeleteKeepsPlainText(s[1..]);
      assert [s[0]] + s[1..] == s;
    }
  }

  lemma FirstIntegerOfDigits(ds: string)
    requires |ds| >= 1 && AllDigits(ds)
    ensures DeleteNoBreakSpaces(ds) == ds
    ensures FirstInteger(ds) == Some(DecimalValue(ds))
  {
    DeleteKeepsPlainText(ds);
    assert ds[0..|ds|] == ds;
    FirstIntegerAt(ds, 0, |ds|);
  }

  lemma FirstIntegerOfSignedDigits(ds: string, t: string)
    requires |ds| >= 1 && AllDigits(ds) && t == ['-'] + ds
    ensures DeleteNoBreakSpaces(t) == t
    ensures FirstInteger(t) == Some(-(DecimalValue(ds) as int))
  {
    FirstIntegerOfDigits(ds);
    DeleteNoBreakSpacesCons('-', ds);
    FirstDigitFromShift(['-'], ds, 0);
    DigitRunEndShift(['-'], ds, 0);
    assert FirstDigitFrom(ds, 0) == 0 && DigitRunEnd(ds, 0) == |ds|;
    SliceAfterPrefix(['-'], ds, 0, |ds|);
    assert ds[0..|ds|] == ds;
    FirstIntegerUnfold(t, 1, |t|, ds, true);
  }

  lemma FirstIntegerOfDecimalString(n: int)
    ensures FirstInteger(DeleteNoBreakSpaces(DecimalString(n))) == Some(n)
  {
    var m: nat := if n < 0 then -n else n;
    if n < 0 {
      FirstIntegerOfSignedDigits(DecimalDigits(m), DecimalString(n));
    } else {
      FirstIntegerOfDigits(DecimalDigits(m));
    }
    DecimalValueOfDigits(m);
  }

  /** Typing the decimal notation of any integer parses back to that integer. */
  lemma ParseDecimalString(n: int)
    ensures ParseIntegerFromMobile(DecimalString(n)) == Some(n)
  {
    FirstIntegerOfDecimalString(n);
    ParseIsFirstInteger(DecimalString(n));
  }

  // ---------------------------------------------------------------------------
  // Sample inputs
  // ---------------------------------------------------------------------------

  /** "", "abc" and "   " are not numbers. */
  lemma NotNumbers(raw: string)
    requires raw == "" || raw == "abc" || raw == "   "
    ensures ParseIntegerFromMobile(raw) == None
  {
    if raw == "abc" {
      assert raw[0] == 'a' && raw[1] == 'b' && raw[2] == 'c';
    } else if raw == "   " {
      assert raw[0] == ' ' && raw[1] == ' ' && raw[2] == ' ';
    }
    assert NoDigit(raw);
    ParseNoneIffNoDigit(raw);
  }

  lemma DecimalValueTwelve(ds: string)
    requires ds == "12"
    ensures DecimalValue(ds) == 12
  {
    assert ds[..1] == "1" && DecimalValue("1") == 1;
  }

  /** A text that starts with the digits 1 and 2 and no third digit reads as 12. */
  lemma LeadingTwelve(s: string)
    requires |s| >= 2 && s[0] == '1' && s[1] == '2' && (|s| > 2 ==> !IsDigit(s[2]))
    ensures FirstInteger(s) == Some(12)
  {
    assert NoDigit(s[..0]);
    assert AllDigits(s[0..2]) && s[0..2] == "12";
    FirstIntegerAt(s, 0, 2);
    DecimalValueTwelve(s[0..2]);
  }

  lemma SpacesExample(s: string)
    requires s == " 7 "
    ensures DeleteNoBreakSpaces(s) == s && FirstInteger(s) == Some(7)
  {
    DeleteKeepsPlainText(s);
    assert s[1..2] == "7";
    FirstIntegerAt(s, 1, 2);
  }

  lemma NoBreakSpacesExample(raw: string)
    requires raw == "\U{00A0}7\U{202F}"
    ensures DeleteNoBreakSpaces(raw) == "7" && FirstInteger("7") == Some(7)
  {
    assert raw[1..] == "7\U{202F}" && raw[1..][1..] == "\U{202F}" && raw[1..][1..][1..] == "";
    assert DeleteNoBreakSpaces(raw[1..][1..]) == [];
    assert DeleteNoBreakSpaces(raw[1..]) == "7";
    FirstIntegerAt("7", 0, 1);
    assert "7"[0..1] == "7";
  }

  lemma JoinedDigitsExample(raw: string)
    requires raw == "1\U{00A0}2"
    ensures DeleteNoBreakSpaces(raw) == "12" && FirstInteger(DeleteNoBreakSpaces(raw)) == Some(12)
  {
    var two := raw[2..];
    assert raw == ['1'] + (['\U{00A0}'] + two) && two == "2";
    DeleteKeepsPlainText(two);
    DeleteNoBreakSpacesCons('\U{00A0}', two);
    DeleteNoBreakSpacesCons('1', ['\U{00A0}'] + two);
    var ds := DeleteNoBreakSpaces(raw);
    assert ds == "12";
    FirstIntegerOfDigits(ds);
    DecimalValueTwelve(ds);
  }

  lemma SignExample(s: string)
    requires s == "x-3"
    ensures DeleteNoBreakSpaces(s) == s && FirstInteger(s) == Some(-3)
  {
    DeleteKeepsPlainText(s);
    assert s[2..3] == "3";
    FirstIntegerAt(s, 2, 3);
  }

  /** "12,0" and "12x" are 12: the comma, turned into a dot, ends the digit run,
      and whatever follows the run is ignored. */
  lemma TwelveInputs(raw: string)
    requires raw == "12,0" || raw == "12x"
    ensures ParseIntegerFromMobile(raw) == Some(12)
  {
    DeleteKeepsPlainText(raw);
    LeadingTwelve(raw);
    ParseIsFirstInteger(raw);
  }

  /** " 7 " is 7. */
  lemma SpacesInput(raw: string)
    requires raw == " 7 "
    ensures ParseIntegerFromMobile(raw) == Some(7)
  {
    SpacesExample(raw);
    ParseIsFirstInteger(raw);
  }

  /** A 7 between a no-break space and a narrow no-break space is 7. */
  lemma NoBreakSpacesInput(raw: string)
    requires raw == "\U{00A0}7\U{202F}"
    ensures ParseIntegerFromMobile(raw) == Some(7)
  {
    NoBreakSpacesExample(raw);
    ParseIsFirstInteger(raw);
  }

  /** Deleting a no-break space joins the digits around it: "1\u00A02" is 12. */
  lemma JoinedDigitsInput(raw: string)
    requires raw == "1\U{00A0}2"
    ensures ParseIntegerFromMobile(raw) == Some(12)
  {
    JoinedDigitsExample(raw);
    ParseIsFirstInteger(raw);
  }

  /** "x-3" is -3: the '-' just before the digit run is its sign. */
  lemma SignInput(raw: string)
    requires raw == "x-3"
    ensures ParseIntegerFromMobile(raw) == Some(-3)
  {
    SignExample(raw);
    ParseIsFirstInteger(raw);
  }
}
