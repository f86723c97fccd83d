/** The order of drives in sets and maps: by model, firmware and serial number, each compared as far as its
    bytes go and not beyond a NUL. Main results: a strict order that tells drives apart exactly by these names,
    and assigning a drive keeps its place in it. */
module DriveIdentity {
  import opened CStrings

  /** strncmp on two arrays of at least n chars: negative, 0 or positive. */
  function StrNCmp(a: seq<char>, b: seq<char>, n: nat): int
    requires n <= |a| && n <= |b|
  {
    if n == 0 then 0
    else if a[0] != b[0] then a[0] as int - b[0] as int
    else if a[0] == NUL then 0
    else StrNCmp(a[1..], b[1..], n - 1)
  }

  /** The name in an array: its chars before the first NUL, at most n. */
  function Name(a: seq<char>, n: nat): (name: string)
    requires n <= |a|
    ensures name <= a && |name| <= n && NUL !in name
    ensures |name| < n ==> a[|name|] == NUL
  {
    CString(a[..n])
  }

  /** Dictionary order. */
  predicate Before(a: string, b: string) {
    b != "" && (a == "" || a[0] < b[0] || (a[0] == b[0] && Before(a[1..], b[1..])))
  }

  lemma SameFirst(a: string, b: string, k: nat)
    requires 0 < k <= |a| && k <= |b| && a[..k] == b[..k]
    ensures a[0] == b[0]
  {
    assert a[..k][0] == a[0];
  }

  /** Up to place k they are the same, and there a ends or has the lower char. */
  predicate BeforeAt(a: string, b: string, k: nat) {
    k <= |a| && k < |b| && a[..k] == b[..k] && (k == |a| || a[k] < b[k])
  }

  lemma BeforeAtNext(a: string, b: string, k: nat)
    requires a != "" && b != "" && a[0] == b[0]
    ensures BeforeAt(a[1..], b[1..], k) <==> BeforeAt(a, b, k + 1)
  {
    if k < |a| && k + 1 < |b| {
      assert a[..k + 1] == [a[0]] + a[1..][..k] && b[..k + 1] == [b[0]] + b[1..][..k];
    }
  }

  /** That is what comes before in the dictionary. */
  lemma {:induction false} BeforeExactly(a: string, b: string)
    ensures Before(a, b) <==> exists k: nat :: BeforeAt(a, b, k)
  {
    if a != "" && b != "" && a[0] == b[0] {
      BeforeExactly(a[1..], b[1..]);
      assert !BeforeAt(a, b, 0);
      forall k: nat ensures BeforeAt(a[1..], b[1..], k) <==> BeforeAt(a, b, k + 1) {
        BeforeAtNext(a, b, k);
      }
      if k: nat :| BeforeAt(a, b, k) {
        assert BeforeAt(a[1..], b[1..], k - 1);
      }
    } else if Before(a, b) {
      assert BeforeAt(a, b, 0);
    } else {
      forall k: nat ensures !BeforeAt(a, b, k) {
        if 0 < k <= |a| && k <= |b| && a[..k] == b[..k] {
          SameFirst(a, b, k);
        }
      }
    }
  }

  lemma {:induction false} StrNCmpOrdersNames(a: seq<char>, b: seq<char>, n: nat)
    requires n <= |a| && n <= |b|
    ensures StrNCmp(a, b, n) < 0 <==> Before(Name(a, n), Name(b, n))
    ensures StrNCmp(a, b, n) == 0 <==> Name(a, n) == Name(b, n)
  {
    if n > 0 {
      assert a[..n][1..] == a[1..][..n - 1] && b[..n][1..] == b[1..][..n - 1];
      if a[0] == b[0] && a[0] != NUL {
        StrNCmpOrdersNames(a[1..], b[1..], n - 1);
        var x, y := Name(a, n), Name(b, n);
        assert x[1..] == Name(a[1..], n - 1) && y[1..] == Name(b[1..], n - 1);
        assert x == y ==> x[1..] == y[1..];
      } else {
        assert a[0] != NUL ==> Name(a, n) != "" && Name(a, n)[0] == a[0];
        assert b[0] != NUL ==> Name(b, n) != "" && Name(b, n)[0] == b[0];
      }
    }
  }

  lemma {:induction false} BeforeIsTransitive(a: string, b: string, c: string)
    requires Before(a, b) && Before(b, c)
    ensures Before(a, c)
  {
    if a != "" && a[0] == b[0] == c[0] {
      BeforeIsTransitive(a[1..], b[1..], c[1..]);
    }
  }

  lemma {:induction false} BeforeIsTotal(a: string, b: string)
    ensures !Before(a, a)
    ensures Before(a, b) ==> !Before(b, a)
    ensures !Before(a, b) && !Before(b, a) ==> a == b
  {
    if a != "" {
      BeforeIsTotal(a[1..], if b == "" then "" else b[1..]);
      assert a == [a[0]] + a[1..];
    }
    if b != "" {
      assert b == [b[0]] + b[1..];
    }
  }

  /** TU_Bln361095hardwareSMARTnumModelBytes and so on. */
  datatype Sizes = Sizes(model: nat, firmware: nat, serial: nat)

  /** The char arrays of a SMARTuniqueID, each one char longer than its size. */
  datatype Drive = Drive(model: seq<char>, firmware: seq<char>, serial: seq<char>) {
    predicate Valid(n: Sizes) {
      |model| == n.model + 1 && |firmware| == n.firmware + 1 && |serial| == n.serial + 1
    }
  }

  /** operator < */
  predicate Less(n: Sizes, left: Drive, right: Drive)
    requires left.Valid(n) && right.Valid(n)
  {
    var byModel := StrNCmp(left.model, right.model, n.model);
    if byModel < 0 then true
    else if byModel == 0 then
      var byFirmware := StrNCmp(left.firmware, right.firmware, n.firmware);
      if byFirmware < 0 then true
      else if byFirmware == 0 then StrNCmp(left.serial, right.serial, n.serial) < 0
      else false
    else false
  }

  predicate KeyBefore(a: (string, string, string), b: (string, string, string)) {
    Before(a.0, b.0) || (a.0 == b.0 && (Before(a.1, b.1) || (a.1 == b.1 && Before(a.2, b.2))))
  }

  /** operator < orders by model, among the same model by firmware, and among the same firmware by serial number. */
  lemma LessExactly(n: Sizes, l: Drive, r: Drive)
    requires l.Valid(n) && r.Valid(n)
    ensures Less(n, l, r) <==>
            || Before(Name(l.model, n.model), Name(r.model, n.model))
            || (Name(l.model, n.model) == Name(r.model, n.model)
                && (|| Before(Name(l.firmware, n.firmware), Name(r.firmware, n.firmware))
                    || (Name(l.firmware, n.firmware) == Name(r.firmware, n.firmware)
                        && Before(Name(l.serial, n.serial), Name(r.serial, n.serial)))))
  {
    StrNCmpOrdersNames(l.model, r.model, n.model);
    StrNCmpOrdersNames(l.firmware, r.firmware, n.firmware);
    StrNCmpOrdersNames(l.serial, r.serial, n.serial);
    BeforeIsTotal(Name(l.model, n.model), Name(l.model, n.model));
    BeforeIsTotal(Name(l.firmware, n.firmware), Name(l.firmware, n.firmware));
  }

  lemma KeyOrder(a: (string, string, string), b: (string, string, string), c: (string, string, string))
    ensures !KeyBefore(a, a)
    ensures KeyBefore(a, b) && KeyBefore(b, c) ==> KeyBefore(a, c)
    ensures !KeyBefore(a, b) && !KeyBefore(b, a) <==> a == b
  {
    hide Before;
    BeforeIsTotal(a.0, b.0);
    BeforeIsTotal(a.1, b.1);
    BeforeIsTotal(a.2, b.2);
    BeforeIsTotal(b.0, a.0);
    BeforeIsTotal(b.1, a.1);
    BeforeIsTotal(b.2, a.2);
    if Before(a.0, b.0) && Before(b.0, c.0) { BeforeIsTransitive(a.0, b.0, c.0); }
    if Before(a.1, b.1) && Before(b.1, c.1) { BeforeIsTransitive(a.1, b.1, c.1); }
    if Before(a.2, b.2) && Before(b.2, c.2) { BeforeIsTransitive(a.2, b.2, c.2); }
  }

  /** Over all drives operator < is irreflexive and transitive, and drives it does not order are exactly those
      with the same model, firmware and serial number: what std::set and std::map need to tell drives apart. */
  lemma DriveOrder(n: Sizes, a: Drive, b: Drive, c: Drive)
    requires a.Valid(n) && b.Valid(n) && c.Valid(n)
    ensures !Less(n, a, a)
    ensures Less(n, a, b) && Less(n, b, c) ==> Less(n, a, c)
    ensures !Less(n, a, b) && !Less(n, b, a) <==>
            && Name(a.model, n.model) == Name(b.model, n.model)
            && Name(a.firmware, n.firmware) == Name(b.firmware, n.firmware)
            && Name(a.serial, n.serial) == Name(b.serial, n.serial)
  {
    hide Less, Before, Name;
    LessExactly(n, a, a);
    LessExactly(n, a, b);
    LessExactly(n, b, a);
    LessExactly(n, b, c);
    LessExactly(n, a, c);
    KeyOrder((Name(a.model, n.model), Name(a.firmware, n.firmware), Name(a.serial, n.serial)),
             (Name(b.model, n.model), Name(b.firmware, n.firmware), Name(b.serial, n.serial)),
             (Name(c.model, n.model), Name(c.firmware, n.firmware), Name(c.serial, n.serial)));
  }

  // ---- Assignment ----

  /** strncpy of n chars: up to the NUL, then padded with NULs. */
  function StrNCpy(src: seq<char>, n: nat): (r: seq<char>)
    requires n <= |src|
    ensures |r| == n
  {
    var s := CString(src[..n]);
    s + seq(n - |s|, _ => NUL)
  }

  /** operator =, the names. */
  function Assigned(n: Sizes, orig: Drive): Drive
    requires orig.Valid(n)
  {
    Drive(StrNCpy(orig.model, n.model + 1), StrNCpy(orig.firmware, n.firmware + 1), StrNCpy(orig.serial, n.serial + 1))
  }

  lemma {:induction false} CopyKeepsName(src: seq<char>, n: nat)
    requires |src| == n + 1
    ensures Name(StrNCpy(src, n + 1), n) == Name(src, n)
  {
    var copy, name := StrNCpy(src, n + 1), Name(src, n);
    assert src[..n + 1] == src;
    FirstNul(src, n);
    if |name| < n {
      CStringUnique(copy[..n], |name|);
    } else {
      assert copy[..n] == name;
      NoNul(name);
    }
  }

  /** An assigned drive has the same names, so it is found where the original is. */
  lemma AssignmentKeepsKey(n: Sizes, orig: Drive)
    requires orig.Valid(n)
    ensures Assigned(n, orig).Valid(n)
    ensures Name(Assigned(n, orig).model, n.model) == Name(orig.model, n.model)
    ensures Name(Assigned(n, orig).firmware, n.firmware) == Name(orig.firmware, n.firmware)
    ensures Name(Assigned(n, orig).serial, n.serial) == Name(orig.serial, n.serial)
    ensures !Less(n, Assigned(n, orig), orig) && !Less(n, orig, Assigned(n, orig))
  {
    hide Less, Name, StrNCpy;
    CopyKeepsName(orig.model, n.model);
    CopyKeepsName(orig.firmware, n.firmware);
    CopyKeepsName(orig.serial, n.serial);
    DriveOrder(n, Assigned(n, orig), orig, orig);
  }
}
