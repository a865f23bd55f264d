/** Names as the ledger writes them: trimming, case mapping, the asset, account, pool and token
    normalisers, and the byte order that breaks ties between block hashes. */
module Text {

  const PKN := "PKN"
  const WPKN := "WPKN"

  predicate Space(c: char) {
    c == ' ' || c == '\t' || c == '\n' || c == '\r' || c == '\U{B}' || c == '\U{C}'
  }

  function UpperChar(c: char): char {
    if 'a' <= c <= 'z' then (c as int - 32) as char else c
  }

  function LowerChar(c: char): char {
    if 'A' <= c <= 'Z' then (c as int + 32) as char else c
  }

  function ToUpper(s: string): string {
    seq(|s|, i requires 0 <= i < |s| => UpperChar(s[i]))
  }

  function ToLower(s: string): string {
    seq(|s|, i requires 0 <= i < |s| => LowerChar(s[i]))
  }

  function Dashed(s: string): string {
    seq(|s|, i requires 0 <= i < |s| => if s[i] == '_' || s[i] == '/' then '-' else s[i])
  }

  function SlashFree(s: string): string {
    seq(|s|, i requires 0 <= i < |s| => if s[i] == '/' then '-' else s[i])
  }

  function TrimSpace(s: string): string {
    if s == "" then s
    else if Space(s[0]) then TrimSpace(s[1..])
    else if Space(s[|s| - 1]) then TrimSpace(s[..|s| - 1])
    else s
  }

  predicate Trimmed(s: string) {
    s != "" ==> !Space(s[0]) && !Space(s[|s| - 1])
  }

  lemma {:induction false} TrimSpaceTrims(s: string)
    ensures Trimmed(TrimSpace(s))
    decreases |s|
  {
    if s != "" && Space(s[0]) {
      TrimSpaceTrims(s[1..]);
    } else if s != "" && Space(s[|s| - 1]) {
      TrimSpaceTrims(s[..|s| - 1]);
    }
  }

  /** Trimming takes off white space at the ends and nothing else. */
  lemma {:induction false} TrimOnlySpace(s: string) returns (front: string, back: string)
    ensures s == front + TrimSpace(s) + back
    ensures forall i :: 0 <= i < |front| ==> Space(front[i])
    ensures forall i :: 0 <= i < |back| ==> Space(back[i])
    decreases |s|
  {
    front, back := "", "";
    if s != "" && Space(s[0]) {
      front, back := TrimOnlySpace(s[1..]);
      front := [s[0]] + front;
    } else if s != "" && Space(s[|s| - 1]) {
      front, back := TrimOnlySpace(s[..|s| - 1]);
      back := back + [s[|s| - 1]];
    }
  }

  /** Case mapping changes the case of letters and nothing else. */
  lemma CaseMapping(s: string)
    ensures ToLower(ToUpper(s)) == ToLower(s) && ToUpper(ToLower(s)) == ToUpper(s)
    ensures forall i :: 0 <= i < |s| ==> !('a' <= ToUpper(s)[i] <= 'z') && !('A' <= ToLower(s)[i] <= 'Z')
    ensures forall i :: 0 <= i < |s| && !('a' <= s[i] <= 'z') ==> ToUpper(s)[i] == s[i]
    ensures forall i :: 0 <= i < |s| && !('A' <= s[i] <= 'Z') ==> ToLower(s)[i] == s[i]
  {
  }

  // ----- normalisers -------------------------------------------------------------------------

  function NormalizeAsset(asset: string): string {
    var a := ToUpper(TrimSpace(asset));
    if a == "W-PKN" then WPKN else a
  }

  function NormalizeAccount(account: string): string {
    var a := TrimSpace(account);
    if "0x" <= a || "0X" <= a then ToLower(a) else a
  }

  function NormalizeNftId(value: string): string {
    ToLower(SlashFree(TrimSpace(value)))
  }

  function PoolID(assetA: string, assetB: string): string {
    var a, b := NormalizeAsset(assetA), NormalizeAsset(assetB);
    if a == "" || b == "" || a == b then ""
    else if Before(a, b) then a + "-" + b
    else b + "-" + a
  }

  /** Splitting at dashes gives two parts exactly when there is one dash. */
  function NormalizePoolID(poolID: string): string {
    var p := Dashed(TrimSpace(poolID));
    var i := IndexOf(p, '-');
    if TwoParts(p) then PoolID(p[..i], p[i + 1..]) else ToUpper(p)
  }

  predicate TwoParts(p: string) {
    var i := IndexOf(p, '-');
    i < |p| && forall j :: i < j < |p| ==> p[j] != '-'
  }

  function NftKey(collection: string, token: string): string {
    var c, t := NormalizeNftId(collection), NormalizeNftId(token);
    if c == "" || t == "" then "" else c + "/" + t
  }

  /** The first index of c, or |s| when it does not occur. */
  function IndexOf(s: string, c: char): (i: nat)
    ensures i <= |s| && (i < |s| ==> s[i] == c)
    ensures forall k :: 0 <= k < i ==> s[k] != c
  {
    if s == "" || s[0] == c then 0 else 1 + IndexOf(s[1..], c)
  }

  lemma IndexOfUnique(a: string, c: char, b: string)
    requires c !in a
    ensures IndexOf(a + [c] + b, c) == |a|
  {
    assert (a + [c] + b)[|a|] == c;
  }

  lemma AssetNormal(asset: string)
    ensures var a := NormalizeAsset(asset); Trimmed(a) && ToUpper(a) == a
    ensures NormalizeAsset(NormalizeAsset(asset)) == NormalizeAsset(asset)
  {
    TrimSpaceTrims(asset);
    var a := NormalizeAsset(asset);
    assert Trimmed(a) && ToUpper(a) == a;
    TrimIdentity(a);
  }

  lemma TrimIdentity(s: string)
    requires Trimmed(s)
    ensures TrimSpace(s) == s
  {
  }

  lemma AccountNormal(account: string)
    ensures NormalizeAccount(NormalizeAccount(account)) == NormalizeAccount(account)
  {
    TrimSpaceTrims(account);
    var a := TrimSpace(account);
    var n := NormalizeAccount(account);
    assert Trimmed(n);
    TrimIdentity(n);
    if "0x" <= a || "0X" <= a {
      assert n[0] == '0' && n[1] == 'x';
      assert "0x" <= n;
      assert ToLower(n) == n;
    }
  }

  /** Two names are the same asset exactly when they are equal up to white space and case, or spell the
      wrapped token in its two ways. */
  lemma SameAssetIff(a: string, b: string)
    ensures NormalizeAsset(a) == NormalizeAsset(b) <==>
              var x, y := ToUpper(TrimSpace(a)), ToUpper(TrimSpace(b));
              x == y || {x, y} == {"WPKN", "W-PKN"}
  {
    hide ToUpper, TrimSpace;
    var x, y := ToUpper(TrimSpace(a)), ToUpper(TrimSpace(b));
    assert "WPKN"[1] != "W-PKN"[1];
    if {x, y} == {"WPKN", "W-PKN"} {
      SamePair(x, y, "WPKN", "W-PKN");
    }
  }

  predicate Hex(s: string) {
    "0x" <= s || "0X" <= s
  }

  /** Two accounts are the same exactly when they are equal up to white space, and up to case when they
      are 0x addresses. */
  lemma SameAccountIff(a: string, b: string)
    ensures NormalizeAccount(a) == NormalizeAccount(b) <==>
              var x, y := TrimSpace(a), TrimSpace(b);
              x == y || (Hex(x) && Hex(y) && ToLower(x) == ToLower(y))
  {
    hide TrimSpace;
    var x, y := TrimSpace(a), TrimSpace(b);
    LowerHex(x);
    LowerHex(y);
  }

  lemma LowerHex(s: string)
    ensures Hex(s) ==> Hex(ToLower(s))
  {
    if Hex(s) {
      assert ToLower(s)[0] == '0' && ToLower(s)[1] == 'x';
      assert "0x" <= ToLower(s);
    }
  }

  lemma NftIdNormal(value: string)
    ensures NormalizeNftId(NormalizeNftId(value)) == NormalizeNftId(value)
    ensures '/' !in NormalizeNftId(value)
  {
    TrimSpaceTrims(value);
    var n := NormalizeNftId(value);
    assert Trimmed(n);
    TrimIdentity(n);
    assert SlashFree(n) == n && ToLower(n) == n;
  }

  /** A token key determines the collection and the token it was made from. */
  lemma NftKeyInjective(c: string, t: string, c': string, t': string)
    requires NftKey(c, t) == NftKey(c', t') != ""
    ensures NormalizeNftId(c) == NormalizeNftId(c') && NormalizeNftId(t) == NormalizeNftId(t')
  {
    NftIdNormal(c);
    NftIdNormal(c');
    var x, y := NormalizeNftId(c), NormalizeNftId(t);
    var x', y' := NormalizeNftId(c'), NormalizeNftId(t');
    var k := NftKey(c, t);
    IndexOfUnique(x, '/', y);
    IndexOfUnique(x', '/', y');
    assert k[..|x|] == x && k[..|x|] == x';
    assert k[|x| + 1..] == y && k[|x| + 1..] == y';
  }

  lemma PoolIDSymmetric(a: string, b: string)
    ensures PoolID(a, b) == PoolID(b, a)
  {
    var x, y := NormalizeAsset(a), NormalizeAsset(b);
    BeforeTotal(x, y);
    BeforeAsymmetric(x, y);
  }

  // ----- pool identifiers ---------------------------------------------------------------------

  /** What a non-empty pool identifier looks like. */
  lemma PoolIDShape(assetA: string, assetB: string) returns (a: string, b: string)
    requires PoolID(assetA, assetB) != ""
    ensures PoolID(assetA, assetB) == a + "-" + b
    ensures a != "" && b != "" && a != b && Before(a, b)
    ensures NormalizeAsset(a) == a && NormalizeAsset(b) == b
    ensures {a, b} == {NormalizeAsset(assetA), NormalizeAsset(assetB)}
    ensures ToUpper(a + "-" + b) == a + "-" + b && Trimmed(a + "-" + b)
  {
    a, b := NormalizeAsset(assetA), NormalizeAsset(assetB);
    AssetNormal(assetA);
    AssetNormal(assetB);
    if !Before(a, b) {
      BeforeTotal(a, b);
      a, b := b, a;
    }
    UpperConcat(a, "-", b);
  }

  lemma UpperConcat(a: string, m: string, b: string)
    requires ToUpper(a) == a && ToUpper(m) == m && ToUpper(b) == b
    ensures ToUpper(a + m + b) == a + m + b
  {
    var s := a + m + b;
    forall i | 0 <= i < |s| ensures UpperChar(s[i]) == s[i] {
      if i < |a| {
        assert s[i] == ToUpper(a)[i];
      } else if i < |a| + |m| {
        assert s[i] == ToUpper(m)[i - |a|];
      } else {
        assert s[i] == ToUpper(b)[i - |a| - |m|];
      }
    }
  }

  predicate Addressable(s: string) {
    forall i :: 0 <= i < |s| ==> s[i] != '_' && s[i] != '/'
  }

  lemma AddressableJoin(a: string, b: string)
    ensures Addressable(a + "-" + b) <==> Addressable(a) && Addressable(b)
  {
    var s := a + "-" + b;
    assert forall i :: 0 <= i < |a| ==> a[i] == s[i];
    assert forall i :: 0 <= i < |b| ==> b[i] == s[i + |a| + 1];
  }

  /** Liquidity and swaps look a pool up through NormalizePoolID.  The pool created for two assets
      is found under its own identifier, or under any name at all, exactly when neither asset name
      has an underscore or a slash. */
  lemma PoolReachable(assetA: string, assetB: string)
    requires PoolID(assetA, assetB) != ""
    ensures var id, reachable := PoolID(assetA, assetB),
                                 Addressable(NormalizeAsset(assetA)) && Addressable(NormalizeAsset(assetB));
            && (NormalizePoolID(id) == id <==> reachable)
            && ((exists name :: NormalizePoolID(name) == id) <==> reachable)
  {
    hide NormalizePoolID, NormalizeAsset, PoolID, Addressable, TrimSpace, ToUpper, Before;
    var a, b := PoolIDShape(assetA, assetB);
    AddressableJoin(a, b);
    SamePair(a, b, NormalizeAsset(assetA), NormalizeAsset(assetB));
    if Addressable(a + "-" + b) {
      NormalPoolID(a, b);
    }
    forall name ensures Addressable(NormalizePoolID(name)) {
      NormalizedPoolIDAddressable(name);
    }
  }

  /** Position i splits an identifier into two canonical asset names in order. */
  predicate SplitsAt(id: string, i: nat) {
    && i < |id| && id[i] == '-'
    && NormalizeAsset(id[..i]) == id[..i] && NormalizeAsset(id[i + 1..]) == id[i + 1..]
    && id[..i] != "" && id[i + 1..] != "" && Before(id[..i], id[i + 1..])
  }

  ghost predicate SameAssets(assetA: string, assetB: string, otherA: string, otherB: string) {
    {NormalizeAsset(assetA), NormalizeAsset(assetB)} == {NormalizeAsset(otherA), NormalizeAsset(otherB)}
  }

  /** The identifiers are the strings that split, and a split gives back the pair. */
  lemma PoolIDSplits(assetA: string, assetB: string) returns (i: nat)
    requires PoolID(assetA, assetB) != ""
    ensures var id := PoolID(assetA, assetB);
            SplitsAt(id, i) && {id[..i], id[i + 1..]} == {NormalizeAsset(assetA), NormalizeAsset(assetB)}
  {
    hide NormalizeAsset, PoolID, TrimSpace, ToUpper, Before;
    var a, b := PoolIDShape(assetA, assetB);
    var id := a + "-" + b;
    i := |a|;
    assert id[..i] == a && id[i + 1..] == b && id[i] == '-';
  }

  lemma SplitIsPoolID(id: string, i: nat)
    requires SplitsAt(id, i)
    ensures PoolID(id[..i], id[i + 1..]) == id
  {
    hide NormalizeAsset;
    BeforeIrreflexive(id[..i]);
    assert id == id[..i] + "-" + id[i + 1..];
  }

  /** A pool identifier determines the pair of assets exactly when it splits in one place only. */
  lemma PoolIDDeterminesPair(assetA: string, assetB: string)
    requires PoolID(assetA, assetB) != ""
    ensures var id := PoolID(assetA, assetB);
            (forall otherA, otherB :: PoolID(otherA, otherB) == id ==> SameAssets(assetA, assetB, otherA, otherB))
            <==> (forall i, j :: SplitsAt(id, i) && SplitsAt(id, j) ==> i == j)
  {
    hide NormalizeAsset, PoolID, SplitsAt, Before;
    var id := PoolID(assetA, assetB);
    if forall i, j :: SplitsAt(id, i) && SplitsAt(id, j) ==> i == j {
      forall otherA, otherB | PoolID(otherA, otherB) == id ensures SameAssets(assetA, assetB, otherA, otherB) {
        var i := PoolIDSplits(assetA, assetB);
        var j := PoolIDSplits(otherA, otherB);
      }
    } else {
      var i, j :| SplitsAt(id, i) && SplitsAt(id, j) && i != j;
      TwoSplits(assetA, assetB, id, i, j);
    }
  }

  /** Two places to split give two pairs; one of them is not the given one. */
  lemma TwoSplits(assetA: string, assetB: string, id: string, i: nat, j: nat)
    requires SplitsAt(id, i) && SplitsAt(id, j) && i != j
    ensures exists otherA, otherB :: PoolID(otherA, otherB) == id && !SameAssets(assetA, assetB, otherA, otherB)
  {
    hide PoolID, NormalizeAsset, Before;
    SplitIsPoolID(id, i);
    SplitIsPoolID(id, j);
    SplitsDiffer(id, i, j);
    assert PoolID(id[..i], id[i + 1..]) == id && PoolID(id[..j], id[j + 1..]) == id;
    assert !(SameAssets(assetA, assetB, id[..i], id[i + 1..]) && SameAssets(assetA, assetB, id[..j], id[j + 1..]));
  }

  lemma SplitsDiffer(id: string, i: nat, j: nat)
    requires SplitsAt(id, i) && SplitsAt(id, j) && i != j
    ensures {id[..i], id[i + 1..]} != {id[..j], id[j + 1..]}
  {
    hide NormalizeAsset, Before;
    if {id[..i], id[i + 1..]} == {id[..j], id[j + 1..]} {
      SamePair(id[..i], id[i + 1..], id[..j], id[j + 1..]);
      BeforeAsymmetric(id[..i], id[i + 1..]);
    }
  }

  /** Names without a dash are such a case. */
  lemma DashFreeSplitsOnce(assetA: string, assetB: string, i: nat, j: nat)
    requires '-' !in NormalizeAsset(assetA) && '-' !in NormalizeAsset(assetB)
    requires SplitsAt(PoolID(assetA, assetB), i) && SplitsAt(PoolID(assetA, assetB), j)
    ensures i == j
  {
    hide TrimSpace, ToUpper, NormalizeAsset, Before;
  }

  /** Names with a dash need not be: the second of these pools can never be created. */
  lemma PoolIDsCollide()
    ensures PoolID("A-B", "C") == PoolID("A", "B-C") == "A-B-C"
    ensures !SameAssets("A-B", "C", "A", "B-C")
  {
    hide TrimSpace;
    TrimIdentity("A-B");
    TrimIdentity("C");
    TrimIdentity("A");
    TrimIdentity("B-C");
    assert ToUpper("A-B") == "A-B" && ToUpper("C") == "C" && ToUpper("A") == "A" && ToUpper("B-C") == "B-C";
  }

  lemma SamePair(a: string, b: string, x: string, y: string)
    requires {a, b} == {x, y}
    ensures (a == x && b == y) || (a == y && b == x)
  {
    assert a in {x, y} && b in {x, y} && x in {a, b} && y in {a, b};
  }

  /** Canonical pool names are fixed points. */
  lemma NormalPoolID(a: string, b: string)
    requires NormalizeAsset(a) == a && NormalizeAsset(b) == b && a != "" && b != "" && a != b
    requires Before(a, b) && Addressable(a + "-" + b)
    requires ToUpper(a + "-" + b) == a + "-" + b && Trimmed(a + "-" + b)
    ensures NormalizePoolID(a + "-" + b) == a + "-" + b
  {
    var id := a + "-" + b;
    TrimIdentity(id);
    assert Dashed(id) == id;
    if TwoParts(id) {
      assert id[|a|] == '-';
      var i := IndexOf(id, '-');
      assert i == |a|;
      assert id[..i] == a && id[i + 1..] == b;
    }
  }

  lemma DashedAddressable(s: string)
    ensures Addressable(Dashed(s))
    ensures Trimmed(s) ==> Trimmed(Dashed(s))
  {
  }

  lemma {:induction false} TrimAddressable(s: string)
    requires Addressable(s)
    ensures Addressable(TrimSpace(s))
    decreases |s|
  {
    if s != "" && Space(s[0]) {
      TrimAddressable(s[1..]);
    } else if s != "" && Space(s[|s| - 1]) {
      TrimAddressable(s[..|s| - 1]);
    }
  }

  lemma AssetAddressable(s: string)
    requires Addressable(s)
    ensures Addressable(NormalizeAsset(s))
  {
    TrimAddressable(s);
    UpperAddressable(TrimSpace(s));
  }

  lemma UpperAddressable(s: string)
    requires Addressable(s)
    ensures Addressable(ToUpper(s))
  {
  }

  lemma PoolIDAddressable(x: string, y: string)
    requires Addressable(x) && Addressable(y)
    ensures Addressable(PoolID(x, y))
  {
    hide NormalizeAsset, Before;
    AssetAddressable(x);
    AssetAddressable(y);
    AddressableJoin(NormalizeAsset(x), NormalizeAsset(y));
    AddressableJoin(NormalizeAsset(y), NormalizeAsset(x));
  }

  lemma AddressablePart(s: string, i: nat, j: nat)
    requires i <= j <= |s| && Addressable(s)
    ensures Addressable(s[i..j])
  {
    assert forall k :: 0 <= k < j - i ==> s[i..j][k] == s[i + k];
  }

  /** Whatever NormalizePoolID returns carries neither separator. */
  lemma NormalizedPoolIDAddressable(s: string)
    ensures Addressable(NormalizePoolID(s))
  {
    hide TrimSpace, Dashed, ToUpper, PoolID, IndexOf, Addressable;
    var p := Dashed(TrimSpace(s));
    DashedAddressable(TrimSpace(s));
    UpperAddressable(p);
    if TwoParts(p) {
      var i := IndexOf(p, '-');
      AddressablePart(p, 0, i);
      AddressablePart(p, i + 1, |p|);
      assert p[0..i] == p[..i] && p[i + 1..|p|] == p[i + 1..];
      PoolIDAddressable(p[..i], p[i + 1..]);
    }
  }

  lemma NormalizePoolIDIdempotent(s: string)
    ensures NormalizePoolID(NormalizePoolID(s)) == NormalizePoolID(s)
  {
    TrimSpaceTrims(s);
    DashedAddressable(TrimSpace(s));
    var p := Dashed(TrimSpace(s));
    var n := NormalizePoolID(s);
    NormalizedPoolIDAddressable(s);
    if TwoParts(p) {
      var i := IndexOf(p, '-');
      if n != "" {
        var a, b := PoolIDShape(p[..i], p[i + 1..]);
        NormalPoolID(a, b);
      }
    } else {
      UpperKeepsDashes(p);
      TrimIdentity(n);
      assert Dashed(n) == n;
    }
  }

  lemma {:induction false} SameIndex(s: string, t: string, c: char)
    requires |s| == |t| && forall i :: 0 <= i < |s| ==> (s[i] == c <==> t[i] == c)
    ensures IndexOf(s, c) == IndexOf(t, c)
  {
    var i, j := IndexOf(s, c), IndexOf(t, c);
    assert i < |s| ==> t[i] == c;
    assert j < |t| ==> s[j] == c;
  }

  /** Upper-casing moves no dash, so a name keeps its number of parts. */
  lemma UpperKeepsDashes(p: string)
    requires Trimmed(p)
    ensures Trimmed(ToUpper(p)) && ToUpper(ToUpper(p)) == ToUpper(p)
    ensures TwoParts(ToUpper(p)) <==> TwoParts(p)
  {
    SameIndex(p, ToUpper(p), '-');
    assert forall i :: 0 <= i < |p| ==> (p[i] == '-' <==> ToUpper(p)[i] == '-');
  }

  // ----- byte order ----------------------------------------------------------------------------

  predicate Before(a: string, b: string) {
    b != "" && (a == "" || a[0] < b[0] || (a[0] == b[0] && Before(a[1..], b[1..])))
  }

  /** The first difference decides, and a proper prefix comes first. */
  lemma {:induction false} BeforeAtDifference(a: string, b: string, i: nat)
    requires i <= |a| && i < |b| && a[..i] == b[..i] && (i == |a| || a[i] < b[i])
    ensures Before(a, b)
    decreases i
  {
    if i > 0 {
      assert a[0] == a[..i][0] == b[0];
      assert a[1..][..i - 1] == a[..i][1..] == b[1..][..i - 1];
      BeforeAtDifference(a[1..], b[1..], i - 1);
    }
  }

  lemma {:induction false} BeforeTotal(a: string, b: string)
    ensures a == b || Before(a, b) || Before(b, a)
    decreases a
  {
    if a != "" && b != "" && a[0] == b[0] {
      BeforeTotal(a[1..], b[1..]);
      assert a == [a[0]] + a[1..] && b == [b[0]] + b[1..];
    }
  }

  lemma {:induction false} BeforeTransitive(a: string, b: string, c: string)
    requires Before(a, b) && Before(b, c)
    ensures Before(a, c)
    decreases a
  {
    if a != "" && a[0] == b[0] == c[0] {
      BeforeTransitive(a[1..], b[1..], c[1..]);
    }
  }

  lemma {:induction false} BeforeIrreflexive(a: string)
    ensures !Before(a, a)
    decreases a
  {
    if a != "" {
      BeforeIrreflexive(a[1..]);
    }
  }

  lemma BeforeAsymmetric(a: string, b: string)
    ensures !(Before(a, b) && Before(b, a))
  {
    if Before(a, b) && Before(b, a) {
      BeforeTransitive(a, b, a);
      BeforeIrreflexive(a);
    }
  }
}
