/** Domain names as strings: splitting at dots, and the plain meaning of "is or lies under". */
module DomainNames {

  function EndsWith(s: string, t: string): bool {
    |t| <= |s| && s[|s| - |t|..] == t
  }

  function StartsWith(s: string, t: string): bool {
    t <= s
  }

  /** `name` lies strictly under `domain`. */
  predicate StrictlyUnder(name: string, domain: string) {
    EndsWith(name, "." + domain)
  }

  /** `name` is `domain` or lies under it. */
  predicate Under(name: string, domain: string) {
    name == domain || StrictlyUnder(name, domain)
  }

  lemma StrictlyUnderAt(name: string, domain: string)
    ensures StrictlyUnder(name, domain)
            <==> |domain| < |name| && name[|name| - |domain| - 1] == '.' && name[|name| - |domain|..] == domain
  {
  }

  lemma UnderTransitive(a: string, b: string, c: string)
    requires Under(a, b) && Under(b, c)
    ensures Under(a, c)
  {
    StrictlyUnderAt(a, b);
    StrictlyUnderAt(b, c);
    StrictlyUnderAt(a, c);
    if a != b && b != c {
      assert a[|a| - |b|..][|b| - |c| - 1] == b[|b| - |c| - 1];
      assert a[|a| - |c|..] == a[|a| - |b|..][|b| - |c|..];
    }
  }

  // ----- split and join

  function FirstDot(s: string): (i: nat)
    ensures i <= |s|
    ensures i < |s| ==> s[i] == '.'
    ensures forall j :: 0 <= j < i ==> s[j] != '.'
  {
    if s == "" || s[0] == '.' then 0 else 1 + FirstDot(s[1..])
  }

  /** `s.split('.')` */
  function Split(s: string): (parts: seq<string>)
    ensures parts != []
    decreases |s|
  {
    var i := FirstDot(s);
    if i == |s| then [s] else [s[..i]] + Split(s[i + 1..])
  }

  /** `'.'.join(parts)` */
  function Join(parts: seq<string>): string {
    if parts == [] then ""
    else if |parts| == 1 then parts[0]
    else parts[0] + "." + Join(parts[1..])
  }

  lemma {:induction false} JoinSplit(s: string)
    ensures Join(Split(s)) == s
    decreases |s|
  {
    var i := FirstDot(s);
    if i < |s| {
      JoinSplit(s[i + 1..]);
      JoinFirst(s[..i], Split(s[i + 1..]));
      CutAt(s, i);
    }
  }

  lemma {:induction false} JoinFirst(first: string, rest: seq<string>)
    requires rest != []
    ensures Join([first] + rest) == first + "." + Join(rest)
  {
    assert ([first] + rest)[1..] == rest;
  }

  lemma CutAt(s: string, i: nat)
    requires i < |s| && s[i] == '.'
    ensures s[..i] + "." + s[i + 1..] == s
  {
  }

  /** A domain over `s` is `s` itself or a domain over what follows its first dot. */
  lemma {:induction false} UnderStep(s: string, d: string)
    ensures var i := FirstDot(s);
            Under(s, d) <==> s == d || (i < |s| && Under(s[i + 1..], d))
  {
    var i := FirstDot(s);
    StrictlyUnderAt(s, d);
    if i < |s| {
      var rest := s[i + 1..];
      StrictlyUnderAt(rest, d);
      if |d| < |rest| {
        assert rest[|rest| - |d|..] == s[|s| - |d|..];
        assert rest[|rest| - |d| - 1] == s[|s| - |d| - 1];
      }
    }
  }

  /** The name formed by the labels from the `i`th on. */
  function Ancestor(s: string, i: nat): string
    requires i <= |Split(s)|
  {
    Join(Split(s)[i..])
  }

  lemma {:induction false} AncestorStep(s: string, i: nat)
    requires 1 <= i <= |Split(s)| && FirstDot(s) < |s|
    ensures i - 1 <= |Split(s[FirstDot(s) + 1..])| && Ancestor(s, i) == Ancestor(s[FirstDot(s) + 1..], i - 1)
  {
    var dot := FirstDot(s);
    DropFirst(s[..dot], Split(s[dot + 1..]), i);
  }

  lemma DropFirst(first: string, labels: seq<string>, i: nat)
    requires 1 <= i <= |labels| + 1
    ensures ([first] + labels)[i..] == labels[i - 1..]
  {
  }

  /** The joins of a name's trailing labels are exactly the domains it is or lies under. */
  lemma {:induction false} AncestorsAreDomains(s: string, d: string)
    ensures Under(s, d) <==> exists i :: 0 <= i < |Split(s)| && Ancestor(s, i) == d
    decreases |s|
  {
    JoinSplit(s);
    assert Split(s)[0..] == Split(s);
    assert Ancestor(s, 0) == s;
    UnderStep(s, d);
    var dot := FirstDot(s);
    if dot < |s| {
      var rest := s[dot + 1..];
      AncestorsAreDomains(rest, d);
      if Under(rest, d) {
        var i :| 0 <= i < |Split(rest)| && Ancestor(rest, i) == d;
        AncestorStep(s, i + 1);
        assert Ancestor(s, i + 1) == d;
      }
      forall i | 1 <= i < |Split(s)| && Ancestor(s, i) == d ensures Under(rest, d) {
        AncestorStep(s, i);
      }
    } else {
      assert |Split(s)| == 1;
    }
  }

  /** Fewer labels make a shorter name. */
  lemma {:induction false} AncestorsShrink(s: string, i: nat, j: nat)
    requires i < j < |Split(s)|
    ensures |Ancestor(s, j)| < |Ancestor(s, i)|
    decreases j - i
  {
    var parts := Split(s)[i..];
    assert parts[1..] == Split(s)[i + 1..];
    assert Join(parts) == parts[0] + "." + Join(parts[1..]);
    if i + 1 < j {
      AncestorsShrink(s, i + 1, j);
    }
  }

  // ----- normalisation (ASCII)

  predicate IsSpace(c: char) {
    c == ' ' || '\t' <= c <= '\r' || '\U{1c}' <= c <= '\U{1f}'
  }

  function LowerChar(c: char): char {
    if 'A' <= c <= 'Z' then c + ('a' - 'A') else c
  }

  function Lower(s: string): (r: string)
    ensures |r| == |s|
  {
    if s == "" then "" else [LowerChar(s[0])] + Lower(s[1..])
  }

  function LeftTrimmed(s: string): string {
    if s != "" && IsSpace(s[0]) then LeftTrimmed(s[1..]) else s
  }

  function RightTrimmed(s: string): string {
    if s != "" && IsSpace(s[|s| - 1]) then RightTrimmed(s[..|s| - 1]) else s
  }

  /** `s.rstrip('.')` */
  function WithoutDots(s: string): (r: string)
    ensures (r == "" || r[|r| - 1] != '.') && |r| <= |s|
  {
    if s != "" && s[|s| - 1] == '.' then WithoutDots(s[..|s| - 1]) else s
  }

  /** The feed checker's form: trimmed, without trailing dots, lower case. */
  function FeedForm(s: string): string {
    Lower(WithoutDots(RightTrimmed(LeftTrimmed(s))))
  }

  /** The policy matcher's form: lower case, without trailing dots. */
  function PolicyForm(s: string): string {
    WithoutDots(Lower(s))
  }

  // ----- what the forms are

  /** The same letter, in either case. */
  predicate SameLetter(c: char, d: char) {
    c == d || ('A' <= c <= 'Z' && d as int == c as int + 32) || ('A' <= d <= 'Z' && c as int == d as int + 32)
  }

  predicate SameUpToCase(s: string, t: string) {
    |s| == |t| && forall i :: 0 <= i < |s| ==> SameLetter(s[i], t[i])
  }

  predicate NoCapitals(s: string) {
    forall i :: 0 <= i < |s| ==> !('A' <= s[i] <= 'Z')
  }

  lemma {:induction false} LowerFolds(s: string)
    ensures SameUpToCase(s, Lower(s)) && NoCapitals(Lower(s))
    decreases |s|
  {
    if s != "" {
      LowerFolds(s[1..]);
    }
  }

  /** Without capitals, two spellings of a name are one. */
  lemma {:induction false} FoldedIsUnique(s: string, t: string, a: string, b: string)
    requires SameUpToCase(s, t) && SameUpToCase(s, a) && SameUpToCase(t, b) && NoCapitals(a) && NoCapitals(b)
    ensures a == b
  {
  }

  predicate BlankFrom(s: string, i: nat, j: nat)
    requires i <= j <= |s|
  {
    forall m :: i <= m < j ==> IsSpace(s[m])
  }

  predicate DotsFrom(s: string, i: nat, j: nat)
    requires i <= j <= |s|
  {
    forall m :: i <= m < j ==> s[m] == '.'
  }

  lemma {:induction false} LeftTrimmedAt(s: string) returns (i: nat)
    ensures i <= |s| && LeftTrimmed(s) == s[i..] && BlankFrom(s, 0, i) && (i < |s| ==> !IsSpace(s[i]))
    decreases |s|
  {
    if s != "" && IsSpace(s[0]) {
      var rest := LeftTrimmedAt(s[1..]);
      i := rest + 1;
      assert s[1..][rest..] == s[i..];
      assert forall m :: 0 < m < i ==> s[m] == s[1..][m - 1];
    } else {
      i := 0;
    }
  }

  lemma {:induction false} RightTrimmedAt(s: string) returns (k: nat)
    ensures k <= |s| && RightTrimmed(s) == s[..k] && BlankFrom(s, k, |s|) && (k > 0 ==> !IsSpace(s[k - 1]))
    decreases |s|
  {
    if s != "" && IsSpace(s[|s| - 1]) {
      var n := |s| - 1;
      k := RightTrimmedAt(s[..n]);
      assert s[..n][..k] == s[..k];
      assert forall m :: 0 <= m < n ==> s[m] == s[..n][m];
    } else {
      k := |s|;
    }
  }

  lemma {:induction false} WithoutDotsAt(s: string) returns (j: nat)
    ensures j <= |s| && WithoutDots(s) == s[..j] && DotsFrom(s, j, |s|) && (j > 0 ==> s[j - 1] != '.')
    decreases |s|
  {
    if s != "" && s[|s| - 1] == '.' {
      var n := |s| - 1;
      j := WithoutDotsAt(s[..n]);
      assert s[..n][..j] == s[..j];
      assert forall m :: 0 <= m < n ==> s[m] == s[..n][m];
    } else {
      j := |s|;
    }
  }

  /** `s[i..j]` is what is left of `s` without surrounding blanks and then without trailing dots. */
  predicate FeedAt(s: string, i: nat, j: nat, k: nat) {
    && i <= j <= k <= |s|
    && BlankFrom(s, 0, i) && BlankFrom(s, k, |s|) && (i < k ==> !IsSpace(s[i]) && !IsSpace(s[k - 1]))
    && DotsFrom(s, j, k) && (i < j ==> s[j - 1] != '.')
  }

  /** The feed form is that part of the name, in lower case. */
  lemma {:induction false} FeedFormIs(s: string) returns (i: nat, j: nat, k: nat)
    ensures FeedAt(s, i, j, k) && SameUpToCase(s[i..j], FeedForm(s)) && NoCapitals(FeedForm(s))
  {
    i := LeftTrimmedAt(s);
    var left := s[i..];
    var width := RightTrimmedAt(left);
    var both := left[..width];
    var length := WithoutDotsAt(both);
    j, k := i + length, i + width;
    assert both[..length] == s[i..j];
    LowerFolds(s[i..j]);
    Shifted(s, i, width, length);
  }

  lemma {:induction false} Shifted(s: string, i: nat, width: nat, length: nat)
    requires length <= width && i + width <= |s|
    requires var left := s[i..];
             BlankFrom(left, width, |left|) && (width > 0 ==> !IsSpace(left[width - 1])) && DotsFrom(left[..width], length, width)
             && (length > 0 ==> left[length - 1] != '.')
    ensures BlankFrom(s, i + width, |s|) && (width > 0 ==> !IsSpace(s[i + width - 1])) && DotsFrom(s, i + length, i + width)
    ensures length > 0 ==> s[i + length - 1] != '.'
  {
    var left := s[i..];
    assert forall m :: i <= m < |s| ==> s[m] == left[m - i];
    assert forall m :: i <= m < i + width ==> s[m] == left[..width][m - i];
  }

  lemma {:induction false} FeedAtUnique(s: string, i: nat, j: nat, k: nat, i': nat, j': nat, k': nat)
    requires FeedAt(s, i, j, k) && FeedAt(s, i', j', k')
    ensures s[i..j] == s[i'..j']
  {
    if i < k && i' < k' {
      assert i == i' && k == k';
      assert j == j';
    }
  }

  lemma {:induction false} FeedFormAt(s: string, i: nat, j: nat, k: nat)
    requires FeedAt(s, i, j, k)
    ensures SameUpToCase(s[i..j], FeedForm(s)) && NoCapitals(FeedForm(s))
  {
    var a, b, c := FeedFormIs(s);
    FeedAtUnique(s, i, j, k, a, b, c);
  }

  /** Names that agree but for case, surrounding blanks and trailing dots have the same feed form. */
  lemma {:induction false} FeedFormIgnores(s: string, i: nat, j: nat, k: nat, t: string, i': nat, j': nat, k': nat)
    requires FeedAt(s, i, j, k) && FeedAt(t, i', j', k') && SameUpToCase(s[i..j], t[i'..j'])
    ensures FeedForm(s) == FeedForm(t)
  {
    FeedFormAt(s, i, j, k);
    FeedFormAt(t, i', j', k');
    FoldedIsUnique(s[i..j], t[i'..j'], FeedForm(s), FeedForm(t));
  }

  /** Names that differ only in case have the same forms. */
  lemma {:induction false} CaseIsIgnored(s: string, t: string)
    requires SameUpToCase(s, t)
    ensures FeedForm(s) == FeedForm(t) && PolicyForm(s) == PolicyForm(t)
  {
    LowerFolds(s);
    LowerFolds(t);
    FoldedIsUnique(s, t, Lower(s), Lower(t));
    var i, j, k := FeedFormIs(s);
    FoldedAt(s, t, i, j, k);
    FeedFormIgnores(s, i, j, k, t, i, j, k);
  }

  lemma {:induction false} FoldedAt(s: string, t: string, i: nat, j: nat, k: nat)
    requires SameUpToCase(s, t) && FeedAt(s, i, j, k)
    ensures FeedAt(t, i, j, k) && SameUpToCase(s[i..j], t[i..j])
  {
    assert forall m :: 0 <= m < |s| ==> SameLetter(s[m], t[m]);
  }

  /** `s[..j]` is `s` without its trailing dots. */
  predicate PolicyAt(s: string, j: nat) {
    j <= |s| && DotsFrom(s, j, |s|) && (j > 0 ==> s[j - 1] != '.')
  }

  /** The policy form is that part of the name, in lower case. */
  lemma {:induction false} PolicyFormIs(s: string) returns (j: nat)
    ensures PolicyAt(s, j)
    ensures SameUpToCase(s[..j], PolicyForm(s)) && NoCapitals(PolicyForm(s))
  {
    LowerFolds(s);
    var lower := Lower(s);
    j := WithoutDotsAt(lower);
    assert forall m :: 0 <= m < |s| ==> SameLetter(s[m], lower[m]);
  }

  lemma {:induction false} PolicyFormAt(s: string, j: nat)
    requires PolicyAt(s, j)
    ensures SameUpToCase(s[..j], PolicyForm(s)) && NoCapitals(PolicyForm(s))
  {
    var k := PolicyFormIs(s);
    assert k == j;
  }

  /** Trailing dots make no difference to it. */
  lemma {:induction false} TrailingDotIgnored(s: string)
    ensures PolicyForm(s + ".") == PolicyForm(s)
  {
    LowerOfDotted(s);
    assert (Lower(s) + ".")[..|s|] == Lower(s);
  }

  lemma {:induction false} LowerOfDotted(s: string)
    ensures Lower(s + ".") == Lower(s) + "."
    decreases |s|
  {
    if s == "" {
      assert s + "." == "." && "."[1..] == "";
    } else {
      assert (s + ".")[1..] == s[1..] + ".";
      LowerOfDotted(s[1..]);
    }
  }

  /** Nor to the feed form, exactly unless the name ends in a blank that the dot then protects. */
  lemma {:induction false} FeedDotIgnoredIff(s: string)
    ensures FeedForm(s + ".") == FeedForm(s) <==> s == "" || !IsSpace(s[|s| - 1]) || BlankFrom(s, 0, |s|)
  {
    var t := s + ".";
    var i, j, k := FeedFormIs(s);
    assert forall m :: 0 <= m < |s| ==> t[m] == s[m];
    if s == "" || !IsSpace(s[|s| - 1]) {
      assert s != "" ==> k == |s|;
      DottedAt(s, i, j);
    } else if BlankFrom(s, 0, |s|) {
      assert FeedAt(t, |s|, |s|, |t|) && t[|s|..|s|] == "" == s[i..j];
      SelfSame("");
      FeedFormIgnores(s, i, j, k, t, |s|, |s|, |t|);
    } else {
      BlankKept(s, i, j, k);
    }
  }

  lemma {:induction false} DottedAt(s: string, i: nat, j: nat)
    requires FeedAt(s, i, j, |s|)
    ensures FeedForm(s + ".") == FeedForm(s)
  {
    var t := s + ".";
    assert forall m :: 0 <= m < |s| ==> t[m] == s[m];
    assert t[i..j] == s[i..j];
    SelfSame(s[i..j]);
    FeedFormIgnores(s, i, j, |s|, t, i, j, |t|);
  }

  /** A blank before the dot stays. */
  lemma {:induction false} BlankKept(s: string, i: nat, j: nat, k: nat)
    requires FeedAt(s, i, j, k) && s != "" && IsSpace(s[|s| - 1]) && !BlankFrom(s, 0, |s|)
    ensures FeedForm(s + ".") != FeedForm(s)
  {
    var t := s + ".";
    assert forall m :: 0 <= m < |s| ==> t[m] == s[m];
    assert i < k < |s|;
    var a, b, c := FeedFormIs(t);
    assert FeedAt(t, i, |s|, |t|);
    FeedAtUnique(t, a, b, c, i, |s|, |t|);
    var a', b', c' := FeedFormIs(s);
    FeedAtUnique(s, a', b', c', i, j, k);
    assert |FeedForm(t)| == |s| - i && |FeedForm(s)| == j - i;
  }

  lemma SelfSame(s: string)
    ensures SameUpToCase(s, s)
  {
  }

  /** A name in lower case, without surrounding blanks or a trailing dot. */
  predicate Normal(s: string) {
    s != "" && NoCapitals(s) && s[|s| - 1] != '.' && !IsSpace(s[0]) && !IsSpace(s[|s| - 1])
  }

  /** Both forms leave it as it is. */
  lemma {:induction false} NormalForms(s: string)
    requires Normal(s)
    ensures FeedForm(s) == s && PolicyForm(s) == s
  {
    LowerFolds(s);
    SelfSame(s);
    FoldedIsUnique(s, s, Lower(s), s);
  }
}
