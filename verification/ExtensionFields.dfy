/** NTP extension fields (section 7.5 of RFC 5905, updated by RFC 7822): framing, and the two
    walkers that read a packet's fields, one into a dictionary and one up to the authenticator. */
module ExtensionFields {
  import opened Basics
  import opened Bytes
  import opened NtpHeaders

  const UNIQUE_IDENTIFIER := 0x0104
  const NTS_COOKIE := 0x0204
  const NTS_AUTHENTICATOR := 0x0404

  /** A field of a packet; `offset` is where its 4-byte header starts. */
  datatype Field = Field(offset: nat, ftype: nat, body: Bytes) {
    function End(): nat { offset + 4 + |body| }
  }

  /** The field whose header starts at `offset`, if it is well formed and fits the packet. */
  function FieldAt(data: Bytes, offset: nat): (f: Option<Field>)
    ensures f.Some? ==> f.value.offset == offset && f.value.End() <= |data|
    ensures f.Some? ==> |f.value.body| % 4 == 0 && |f.value.body| + 4 < 0x10000
  {
    if offset + 4 > |data| then None
    else
      var ftype := U16At(data, offset);
      var length := U16At(data, offset + 2);
      if length < 4 || length % 4 != 0 || offset + length > |data| then None
      else Some(Field(offset, ftype, data[offset + 4..offset + length]))
  }

  /** The fields from `offset` up to the first malformed one. */
  function Walk(data: Bytes, offset: nat): seq<Field>
    decreases |data| - offset
  {
    match FieldAt(data, offset)
    case None => []
    case Some(f) => [f] + Walk(data, f.End())
  }

  /** The last field of type `t`: the one a dictionary filled in order keeps. */
  function LastOf(fs: seq<Field>, t: nat): (f: Option<Field>)
  {
    if fs == [] then None
    else if fs[|fs| - 1].ftype == t then Some(fs[|fs| - 1])
    else LastOf(fs[..|fs| - 1], t)
  }

  /** The body a packet's dictionary gives for type `t`. */
  function Lookup(data: Bytes, t: nat): Option<Bytes> {
    match LastOf(Walk(data, HEADER_LENGTH), t)
    case None => None
    case Some(f) => Some(f.body)
  }

  datatype Authenticator = Authenticator(aad: Bytes, tag: Bytes)

  /** The first authenticator field from `offset`, unless a malformed field comes before it. */
  function AuthenticatorFrom(data: Bytes, offset: nat): Option<Authenticator>
    requires offset <= |data|
    decreases |data| - offset
  {
    match FieldAt(data, offset)
    case None => None
    case Some(f) =>
      if f.ftype == NTS_AUTHENTICATOR then Some(Authenticator(data[..offset], f.body))
      else AuthenticatorFrom(data, f.End())
  }

  function Extracted(data: Bytes): Option<Authenticator> {
    if |data| < HEADER_LENGTH then None else AuthenticatorFrom(data, HEADER_LENGTH)
  }

  /** The extension-field loop of `parse_ntp_packet`. */
  method ParseFields(data: Bytes) returns (fields: map<nat, Bytes>)
    requires |data| >= HEADER_LENGTH
    ensures forall t: nat :: t in fields <==> Lookup(data, t).Some?
    ensures forall t: nat :: t in fields ==> Lookup(data, t) == Some(fields[t])
  {
    fields := map[];
    var offset := HEADER_LENGTH;
    ghost var seen: seq<Field> := [];
    while offset < |data|
      invariant Walked(data, seen, offset)
      invariant KeepsLast(fields, seen)
    {
      if offset + 4 > |data| {
        break;
      }
      var fieldType := U16At(data, offset);
      var length := U16At(data, offset + 2);
      if length < 4 || length % 4 != 0 {
        break;
      }
      if offset + length > |data| {
        break;
      }
      ghost var f := Field(offset, fieldType, data[offset + 4..offset + length]);
      assert FieldAt(data, offset) == Some(f);
      StepOver(data, seen, f);
      KeepsNewest(fields, seen, f);
      seen := seen + [f];
      fields := fields[fieldType := data[offset + 4..offset + length]];
      offset := offset + length;
    }
    assert FieldAt(data, offset).None?;
    WalkedOut(data, seen, offset);
  }

  /** `seen` are the fields of the packet before `offset`. */
  ghost predicate Walked(data: Bytes, seen: seq<Field>, offset: nat) {
    seen + Walk(data, offset) == Walk(data, HEADER_LENGTH)
  }

  /** `fields` is the dictionary that `seen` leaves. */
  ghost predicate KeepsLast(fields: map<nat, Bytes>, seen: seq<Field>) {
    && (forall t: nat :: t in fields <==> LastOf(seen, t).Some?)
    && (forall t: nat :: t in fields ==> LastOf(seen, t).value.body == fields[t])
  }

  lemma {:induction false} StepOver(data: Bytes, seen: seq<Field>, f: Field)
    requires FieldAt(data, f.offset) == Some(f) && Walked(data, seen, f.offset)
    ensures Walked(data, seen + [f], f.End())
  {
  }

  lemma {:induction false} WalkedOut(data: Bytes, seen: seq<Field>, offset: nat)
    requires FieldAt(data, offset).None? && Walked(data, seen, offset)
    ensures seen == Walk(data, HEADER_LENGTH)
  {
  }

  lemma {:induction false} KeepsNewest(fields: map<nat, Bytes>, seen: seq<Field>, f: Field)
    requires KeepsLast(fields, seen)
    ensures KeepsLast(fields[f.ftype := f.body], seen + [f])
  {
  }

  method ExtractAuthenticator(data: Bytes) returns (result: Option<Authenticator>)
    ensures result == Extracted(data)
  {
    if |data| < HEADER_LENGTH {
      return None;
    }
    var offset := HEADER_LENGTH;
    while offset + 4 <= |data|
      invariant offset <= |data|
      invariant AuthenticatorFrom(data, offset) == AuthenticatorFrom(data, HEADER_LENGTH)
    {
      var fieldType := U16At(data, offset);
      var length := U16At(data, offset + 2);
      if length < 4 || length % 4 != 0 || offset + length > |data| {
        return None;
      }
      assert FieldAt(data, offset) == Some(Field(offset, fieldType, data[offset + 4..offset + length]));
      if fieldType == NTS_AUTHENTICATOR {
        return Some(Authenticator(data[..offset], data[offset + 4..offset + length]));
      }
      offset := offset + length;
    }
    result := None;
  }

  /** Every body a dictionary gives is 4-byte aligned and short enough to be framed again. */
  lemma LookupAligned(data: Bytes, t: nat)
    requires Lookup(data, t).Some?
    ensures |Lookup(data, t).value| % 4 == 0 && |Lookup(data, t).value| + 4 < 0x10000
  {
    LastOfIsElement(Walk(data, HEADER_LENGTH), t);
    FieldAligned(data, HEADER_LENGTH, LastOf(Walk(data, HEADER_LENGTH), t).value);
  }

  lemma {:induction false} FieldAligned(data: Bytes, offset: nat, f: Field)
    requires f in Walk(data, offset)
    ensures |f.body| % 4 == 0 && |f.body| + 4 < 0x10000
    decreases |data| - offset
  {
    var g := FieldAt(data, offset).value;
    if f != g {
      FieldAligned(data, g.End(), f);
    }
  }

  // ----- the two walkers agree

  lemma PrefixSlice(data: Bytes, cut: nat, i: nat, j: nat)
    requires i <= j <= cut <= |data|
    ensures data[..cut][i..j] == data[i..j]
  {
  }

  lemma {:induction false} WalkOffsets(data: Bytes, offset: nat, i: nat)
    requires i < |Walk(data, offset)|
    ensures offset <= Walk(data, offset)[i].offset && Walk(data, offset)[i].End() <= |data|
    decreases i
  {
    var f := FieldAt(data, offset).value;
    WalkStep(data, f);
    if i > 0 {
      WalkOffsets(data, f.End(), i - 1);
    }
  }

  /** Cutting the packet where one of its fields starts leaves exactly the fields before it. */
  lemma {:induction false} WalkOfPrefix(data: Bytes, offset: nat, i: nat)
    requires i < |Walk(data, offset)|
    ensures var cut := Walk(data, offset)[i].offset;
            offset <= cut <= |data| && Walk(data[..cut], offset) == Walk(data, offset)[..i]
    decreases i
  {
    WalkOffsets(data, offset, i);
    var f := FieldAt(data, offset).value;
    WalkStep(data, f);
    if i > 0 {
      var cut := Walk(data, f.End())[i - 1].offset;
      WalkOfPrefix(data, f.End(), i - 1);
      FieldOfPrefix(data, cut, f);
      WalkStep(data[..cut], f);
      HeadOfPrefix(f, Walk(data, f.End()), i);
    }
  }

  lemma HeadOfPrefix(f: Field, fs: seq<Field>, i: nat)
    requires 0 < i <= |fs| + 1
    ensures ([f] + fs)[..i] == [f] + fs[..i - 1]
  {
  }

  /** A field that ends before the cut is still there after it. */
  lemma {:induction false} FieldOfPrefix(data: Bytes, cut: nat, f: Field)
    requires FieldAt(data, f.offset) == Some(f) && f.End() <= cut <= |data|
    ensures FieldAt(data[..cut], f.offset) == Some(f)
  {
    PrefixSlice(data, cut, f.offset + 4, f.End());
  }

  /** Field `i` of the walk is its first authenticator. */
  predicate FirstAuthenticator(fs: seq<Field>, i: nat) {
    i < |fs| && fs[i].ftype == NTS_AUTHENTICATOR && forall j :: 0 <= j < i ==> fs[j].ftype != NTS_AUTHENTICATOR
  }

  lemma {:induction false} WalkStep(data: Bytes, f: Field)
    requires FieldAt(data, f.offset) == Some(f)
    ensures Walk(data, f.offset) == [f] + Walk(data, f.End())
  {
  }

  /** An authenticator that is found is the first one of the walk. */
  lemma {:induction false} FoundIsFirst(data: Bytes, offset: nat) returns (i: nat)
    requires offset <= |data| && AuthenticatorFrom(data, offset).Some?
    ensures var fs := Walk(data, offset);
            && FirstAuthenticator(fs, i)
            && fs[i].offset <= |data|
            && AuthenticatorFrom(data, offset) == Some(Authenticator(data[..fs[i].offset], fs[i].body))
    decreases |data| - offset
  {
    var f := FieldAt(data, offset).value;
    WalkStep(data, f);
    if f.ftype == NTS_AUTHENTICATOR {
      i := 0;
    } else {
      var k := FoundIsFirst(data, f.End());
      i := k + 1;
    }
  }

  /** The first authenticator of the walk is the one found. */
  lemma {:induction false} FirstIsFound(data: Bytes, offset: nat, i: nat)
    requires offset <= |data| && FirstAuthenticator(Walk(data, offset), i)
    ensures var fs := Walk(data, offset);
            fs[i].offset <= |data| && AuthenticatorFrom(data, offset) == Some(Authenticator(data[..fs[i].offset], fs[i].body))
    decreases i
  {
    var f := FieldAt(data, offset).value;
    WalkStep(data, f);
    if i > 0 {
      var fs, rest := Walk(data, offset), Walk(data, f.End());
      assert fs[0] == f && fs[i] == rest[i - 1];
      forall j | 0 <= j < i - 1 ensures rest[j].ftype != NTS_AUTHENTICATOR {
        assert fs[j + 1] == rest[j];
      }
      FirstIsFound(data, f.End(), i - 1);
    }
  }

  /** When the authenticator is found, the dictionary walker read the same field at the same offset, and
      the fields it read before are exactly those of the authenticated prefix, none an authenticator. */
  lemma {:induction false} WalkersAgree(data: Bytes) returns (i: nat)
    requires Extracted(data).Some?
    ensures var fs := Walk(data, HEADER_LENGTH);
            var a := Extracted(data).value;
            && FirstAuthenticator(fs, i)
            && fs[i] == Field(|a.aad|, NTS_AUTHENTICATOR, a.tag)
            && a.aad <= data
            && Walk(a.aad, HEADER_LENGTH) == fs[..i]
  {
    i := FoundIsFirst(data, HEADER_LENGTH);
    WalkOfPrefix(data, HEADER_LENGTH, i);
  }

  lemma {:induction false} LastOfAppend(fs: seq<Field>, gs: seq<Field>, t: nat)
    ensures LastOf(fs + gs, t) == if LastOf(gs, t).Some? then LastOf(gs, t) else LastOf(fs, t)
    decreases |gs|
  {
    if gs == [] {
      assert fs + gs == fs;
    } else {
      var last := |gs| - 1;
      assert (fs + gs)[..|fs + gs| - 1] == fs + gs[..last];
      LastOfAppend(fs, gs[..last], t);
    }
  }

  lemma {:induction false} LastOfIsElement(fs: seq<Field>, t: nat)
    requires LastOf(fs, t).Some?
    ensures LastOf(fs, t).value in fs && LastOf(fs, t).value.ftype == t
    decreases |fs|
  {
    if fs[|fs| - 1].ftype != t {
      LastOfIsElement(fs[..|fs| - 1], t);
    }
  }

  /** Either a field of type `t` follows index `i` and the last such is used, or the used one comes before. */
  lemma LastOfSplit(fs: seq<Field>, i: nat, t: nat)
    requires i < |fs| && fs[i].ftype != t && LastOf(fs, t).Some?
    ensures if exists j :: i < j < |fs| && fs[j].ftype == t
            then exists j :: i < j < |fs| && fs[j] == LastOf(fs, t).value
            else LastOf(fs, t) == LastOf(fs[..i], t) && exists j :: 0 <= j < i && fs[j] == LastOf(fs, t).value
  {
    var after := fs[i + 1..];
    assert fs == fs[..i + 1] + after;
    assert fs[..i + 1][..i] == fs[..i];
    LastOfAppend(fs[..i + 1], after, t);
    if LastOf(after, t).Some? {
      LastOfIsElement(after, t);
      var k :| 0 <= k < |after| && after[k] == LastOf(after, t).value;
      assert fs[i + 1 + k] == LastOf(fs, t).value;
      assert fs[i + 1 + k].ftype == t;
    } else {
      LastOfIsElement(fs[..i], t);
      var k :| 0 <= k < i && fs[..i][k] == LastOf(fs, t).value;
      assert fs[k] == LastOf(fs, t).value;
      forall j | i < j < |fs| ensures fs[j].ftype != t {
        NoneOfType(after, t, j - i - 1);
        assert after[j - i - 1] == fs[j];
      }
    }
  }

  /** The field used for type `t` comes from the authenticated prefix exactly when none of that type
      follows the authenticator; then the whole packet and the prefix give the same body. */
  lemma {:induction false} UsedFieldIsAuthenticated(data: Bytes, t: nat) returns (i: nat)
    requires Extracted(data).Some? && t != NTS_AUTHENTICATOR && Lookup(data, t).Some?
    ensures var fs := Walk(data, HEADER_LENGTH);
            i < |fs| && fs[i].offset == |Extracted(data).value.aad|
    ensures var fs := Walk(data, HEADER_LENGTH);
            var inPrefix := LastOf(fs, t).value.End() <= |Extracted(data).value.aad|;
            inPrefix <==> forall j :: i < j < |fs| ==> fs[j].ftype != t
    ensures var aad := Extracted(data).value.aad;
            LastOf(Walk(data, HEADER_LENGTH), t).value.End() <= |aad| ==> Lookup(data, t) == Lookup(aad, t)
  {
    var fs := Walk(data, HEADER_LENGTH);
    i := WalkersAgree(data);
    LastOfSplit(fs, i, t);
    if exists j :: i < j < |fs| && fs[j].ftype == t {
      var j :| i < j < |fs| && fs[j] == LastOf(fs, t).value;
      FieldsInOrder(data, HEADER_LENGTH, i, j);
    } else {
      var j :| 0 <= j < i && fs[j] == LastOf(fs, t).value;
      FieldsInOrder(data, HEADER_LENGTH, j, i);
    }
  }

  lemma {:induction false} NoneOfType(fs: seq<Field>, t: nat, j: nat)
    requires LastOf(fs, t).None? && j < |fs|
    ensures fs[j].ftype != t
    decreases |fs|
  {
    if j < |fs| - 1 {
      NoneOfType(fs[..|fs| - 1], t, j);
    }
  }

  lemma {:induction false} FieldsInOrder(data: Bytes, offset: nat, i: nat, j: nat)
    requires i < j < |Walk(data, offset)|
    ensures Walk(data, offset)[i].End() <= Walk(data, offset)[j].offset
    decreases i
  {
    var f := FieldAt(data, offset).value;
    WalkStep(data, f);
    if i == 0 {
      WalkOffsets(data, f.End(), j - 1);
    } else {
      FieldsInOrder(data, f.End(), i - 1, j - 1);
    }
  }

  // ----- framing

  /** A field to be framed; its body is already padded. */
  datatype Spec = Spec(ftype: nat, body: Bytes)

  predicate Framable(s: Spec) {
    s.ftype < 0x10000 && |s.body| % 4 == 0 && |s.body| + 4 < 0x10000
  }

  function Frame(s: Spec): (b: Bytes)
    ensures |b| == 4 + |s.body|
  {
    PackPair(s.ftype, 4 + |s.body|) + s.body
  }

  /** The layout: type, length of the whole field, body. */
  lemma {:induction false} FrameLayout(s: Spec)
    requires Framable(s)
    ensures var b := Frame(s);
            UnpackBE(b[0..2]) == s.ftype && UnpackBE(b[2..4]) == |b| == 4 + |s.body| && b[4..] == s.body
  {
    var b := Frame(s);
    U16IsBigEndian(b, 0);
    U16IsBigEndian(b, 2);
  }

  /** `_build_ef`: the body is padded with zeros to a 4-byte boundary. */
  function BuildField(ftype: nat, body: Bytes): Bytes
    requires ftype < 0x10000 && |Padded(body)| + 4 < 0x10000
  {
    Frame(Spec(ftype, Padded(body)))
  }

  predicate AllFramable(specs: seq<Spec>) {
    specs == [] || (Framable(specs[0]) && AllFramable(specs[1..]))
  }

  function Frames(specs: seq<Spec>): Bytes {
    if specs == [] then [] else Frame(specs[0]) + Frames(specs[1..])
  }

  /** The fields that `specs` become when framed one after another from `offset`. */
  function Placed(offset: nat, specs: seq<Spec>): seq<Field>
    decreases |specs|
  {
    if specs == [] then []
    else [Field(offset, specs[0].ftype, specs[0].body)] + Placed(offset + 4 + |specs[0].body|, specs[1..])
  }

  lemma {:induction false} FramesAppend(specs: seq<Spec>, s: Spec)
    ensures Frames(specs + [s]) == Frames(specs) + Frame(s)
    ensures AllFramable(specs) && Framable(s) ==> AllFramable(specs + [s])
    decreases |specs|
  {
    if specs == [] {
      assert specs + [s] == [s] && [s][1..] == [];
      assert Frame(s) + [] == Frame(s) && [] + Frame(s) == Frame(s);
    } else {
      assert (specs + [s])[1..] == specs[1..] + [s];
      FramesAppend(specs[1..], s);
      Regroup(Frame(specs[0]), Frames(specs[1..]), Frame(s));
    }
  }

  lemma {:induction false} PlacedAppend(offset: nat, specs: seq<Spec>, s: Spec)
    ensures Placed(offset, specs + [s]) == Placed(offset, specs) + [Field(offset + |Frames(specs)|, s.ftype, s.body)]
    decreases |specs|
  {
    if specs == [] {
      assert specs + [s] == [s] && [s][1..] == [];
    } else {
      assert (specs + [s])[1..] == specs[1..] + [s];
      PlacedAppend(offset + 4 + |specs[0].body|, specs[1..], s);
      var f, g := Field(offset, specs[0].ftype, specs[0].body), Field(offset + |Frames(specs)|, s.ftype, s.body);
      Regroup([f], Placed(offset + 4 + |specs[0].body|, specs[1..]), [g]);
    }
  }

  lemma {:induction false} FieldAtFrame(data: Bytes, n: nat, s: Spec, after: Bytes)
    requires Framable(s) && n <= |data| && data[n..] == Frame(s) + after
    ensures FieldAt(data, n) == Some(Field(n, s.ftype, s.body))
    ensures data[n + |Frame(s)|..] == after
  {
    Regroup(PackPair(s.ftype, 4 + |s.body|), s.body, after);
    PairAt(data, n, s.ftype, 4 + |s.body|, s.body + after);
    TakeFront(data, n + 4, s.body, after);
  }

  lemma TakeFront(data: Bytes, n: nat, front: Bytes, after: Bytes)
    requires n <= |data| && data[n..] == front + after
    ensures n + |front| <= |data| && data[n..n + |front|] == front && data[n + |front|..] == after
  {
  }

  /** The fields `fs` follow one another in `data` from `n` to its end. */
  predicate Chained(data: Bytes, n: nat, fs: seq<Field>)
    decreases |fs|
  {
    if fs == [] then n == |data|
    else FieldAt(data, n) == Some(fs[0]) && Chained(data, fs[0].End(), fs[1..])
  }

  lemma {:induction false} ChainedFrame(data: Bytes, n: nat, s: Spec, after: Bytes, fs: seq<Field>)
    requires Framable(s) && n <= |data| && data[n..] == Frame(s) + after
    requires Chained(data, n + 4 + |s.body|, fs)
    ensures Chained(data, n, [Field(n, s.ftype, s.body)] + fs)
  {
    FieldAtFrame(data, n, s, after);
    assert ([Field(n, s.ftype, s.body)] + fs)[1..] == fs;
  }

  lemma {:induction false} PlacedStep(n: nat, specs: seq<Spec>)
    requires specs != []
    ensures Placed(n, specs)
            == [Field(n, specs[0].ftype, specs[0].body)] + Placed(n + 4 + |specs[0].body|, specs[1..])
  {
  }

  /** Each frame in its place. */
  predicate Framed(data: Bytes, n: nat, specs: seq<Spec>)
    decreases |specs|
  {
    if specs == [] then n == |data|
    else
      var next := n + 4 + |specs[0].body|;
      next <= |data| && data[n..next] == Frame(specs[0]) && Framed(data, next, specs[1..])
  }

  lemma {:induction false} FramesFramed(data: Bytes, n: nat, specs: seq<Spec>)
    requires AllFramable(specs) && n <= |data| && data[n..] == Frames(specs)
    ensures Framed(data, n, specs)
    decreases |specs|
  {
    if specs == [] {
      assert |data[n..]| == 0;
    } else {
      TakeFront(data, n, Frame(specs[0]), Frames(specs[1..]));
      FramesFramed(data, n + 4 + |specs[0].body|, specs[1..]);
    }
  }

  lemma {:induction false} FramedChained(data: Bytes, n: nat, specs: seq<Spec>)
    requires AllFramable(specs) && Framed(data, n, specs)
    ensures Chained(data, n, Placed(n, specs))
    decreases |specs|
  {
    if specs != [] {
      var next := n + 4 + |specs[0].body|;
      FramedChained(data, next, specs[1..]);
      DropSplit(data, n, next);
      PlacedStep(n, specs);
      ChainedFrame(data, n, specs[0], data[next..], Placed(next, specs[1..]));
    }
  }

  lemma DropSplit(data: Bytes, n: nat, m: nat)
    requires n <= m <= |data|
    ensures data[n..] == data[n..m] + data[m..]
  {
  }

  lemma {:induction false} WalkChained(data: Bytes, n: nat, fs: seq<Field>)
    requires Chained(data, n, fs)
    ensures Walk(data, n) == fs
    decreases |fs|
  {
    if fs != [] {
      WalkStep(data, fs[0]);
      WalkChained(data, fs[0].End(), fs[1..]);
      assert fs == [fs[0]] + fs[1..];
    }
  }

  /** Walking framed fields gives each back at its own offset. */
  lemma {:induction false} WalkFrames(data: Bytes, n: nat, specs: seq<Spec>)
    requires AllFramable(specs) && n <= |data| && data[n..] == Frames(specs)
    ensures Walk(data, n) == Placed(n, specs)
  {
    FramesFramed(data, n, specs);
    FramedChained(data, n, specs);
    WalkChained(data, n, Placed(n, specs));
  }

  lemma DropOfAppend(data: Bytes, n: nat, more: Bytes)
    requires n <= |data|
    ensures (data + more)[n..] == data[n..] + more
  {
  }

  /** A field framed after others is walked after them. */
  lemma {:induction false} WalkExtended(data: Bytes, n: nat, specs: seq<Spec>, s: Spec)
    requires Framable(s) && AllFramable(specs) && n <= |data| && data[n..] == Frames(specs)
    ensures Walk(data + Frame(s), n) == Walk(data, n) + [Field(|data|, s.ftype, s.body)]
  {
    WalkFrames(data, n, specs);
    FramesAppend(specs, s);
    PlacedAppend(n, specs, s);
    DropOfAppend(data, n, Frame(s));
    WalkFrames(data + Frame(s), n, specs + [s]);
  }
}
