/** What happens at the edge of 32 bits: containers that can be reached, and whose counts do not fit. */
module Limits {
  import opened Common
  import opened Schema
  import opened Tree
  import opened Calls
  import opened Invariant
  import opened Runs
  import opened Quota
  import opened NameCounts
  import opened Ordering
  import opened Listing

  // --- enough names ----------------------------------------------------------------

  function Pow2(n: nat): nat {
    if n == 0 then 1 else 2 * Pow2(n - 1)
  }

  lemma {:induction false} Pow2Zero()
    ensures Pow2(0) == 1
  {
  }

  lemma {:induction false} Pow2More(n: nat)
    ensures Pow2(n + 8) == 256 * Pow2(n)
  {
    assert Pow2(n + 8) == 2 * Pow2(n + 7) && Pow2(n + 7) == 2 * Pow2(n + 6);
    assert Pow2(n + 6) == 2 * Pow2(n + 5) && Pow2(n + 5) == 2 * Pow2(n + 4);
    assert Pow2(n + 4) == 2 * Pow2(n + 3) && Pow2(n + 3) == 2 * Pow2(n + 2);
    assert Pow2(n + 2) == 2 * Pow2(n + 1) && Pow2(n + 1) == 2 * Pow2(n);
  }

  /** The last `width` binary digits of `n`, written in `a` and `b`. */
  function Digits(n: nat, width: nat): Name
    decreases width
  {
    if width == 0 then [] else Digits(n / 2, width - 1) + [if n % 2 == 0 then 97 else 98]
  }

  lemma {:induction false} DigitsShape(n: nat, width: nat)
    ensures |Digits(n, width)| == width && forall b <- Digits(n, width) :: b == 97 || b == 98
    decreases width
  {
    if width == 0 {
    } else {
      DigitsShape(n / 2, width - 1);
    }
  }

  lemma {:induction false} DigitsDiffer(m: nat, n: nat, width: nat)
    requires m < Pow2(width) && n < Pow2(width) && m != n
    ensures Digits(m, width) != Digits(n, width)
    decreases width
  {
    if width == 0 {
    } else {
      var p, q := Digits(m, width), Digits(n, width);
      DigitsShape(m, width);
      DigitsShape(n, width);
      assert p[..width - 1] == Digits(m / 2, width - 1) && q[..width - 1] == Digits(n / 2, width - 1) by {
        DigitsShape(m / 2, width - 1);
        DigitsShape(n / 2, width - 1);
      }
      if m / 2 != n / 2 {
        DigitsDiffer(m / 2, n / 2, width - 1);
      } else {
        assert p[width - 1] != q[width - 1];
      }
    }
  }

  /** 2^32 different names of 32 bytes. */
  function Label(n: nat): Name {
    Digits(n, 32)
  }

  lemma {:induction false} LabelOk(n: nat)
    ensures ValidName(Label(n)) && |Label(n)| == 32
  {
    DigitsShape(n, 32);
  }

  lemma {:induction false} LabelsDiffer(m: nat, n: nat)
    requires m < TWO_TO_THE_32 && n < TWO_TO_THE_32 && m != n
    ensures Label(m) != Label(n)
  {
    Pow2More(0);
    Pow2More(8);
    Pow2More(16);
    Pow2More(24);
    hide Pow2, Digits;
    assert Pow2(32) == TWO_TO_THE_32 by { Pow2Zero(); }
    DigitsDiffer(m, n, 32);
  }

  // --- a file with 2^32 names -----------------------------------------------------------

  /** Inode 2 has the first `n` labels in the root, and there is no other name. */
  ghost predicate Linked(t: Tables, n: nat) {
    && IsDir(t.inodes, ROOT_INO) && 2 in t.inodes && !IsDir(t.inodes, 2)
    && (forall k <- t.dentries :: t.dentries[k] == 2)
    && |t.dentries| == n
    && (forall i: nat :: n <= i < TWO_TO_THE_32 ==> DentryKey(ROOT_INO, Label(i)) !in t.dentries)
  }

  lemma {:induction false} FirstLink(m: Mount)
    ensures Linked(Apply(m, Fresh(m), Create(ROOT_INO, Label(0), 0)).t, 1)
  {
    FreshTotal(m);
    hide TotalSize, Label, ModeFor, NamesOf;
    var key := DentryKey(ROOT_INO, Label(0));
    var t := Apply(m, Fresh(m), Create(ROOT_INO, Label(0), 0)).t;
    assert t.dentries == map[key := 2];
    forall i: nat | 1 <= i < TWO_TO_THE_32 ensures DentryKey(ROOT_INO, Label(i)) !in t.dentries {
      LabelsDiffer(0, i);
    }
  }

  lemma {:induction false} NextLink(m: Mount, t: Tables, n: nat)
    requires Linked(t, n) && n < TWO_TO_THE_32
    ensures Linked(Apply(m, t, Link(2, ROOT_INO, Label(n))).t, n + 1)
  {
    hide Label, NamesOf;
    var key := DentryKey(ROOT_INO, Label(n));
    AddSize(t.dentries, key, 2);
    forall i: nat | n + 1 <= i < TWO_TO_THE_32 ensures DentryKey(ROOT_INO, Label(i)) !in t.dentries[key := 2] {
      LabelsDiffer(n, i);
    }
  }

  lemma {:induction false} LinkedUpTo(m: Mount, n: nat) returns (t: Tables)
    requires 1 <= n <= TWO_TO_THE_32
    ensures Reachable(Fresh(m), m.maxSize, t) && Linked(t, n)
  {
    hide Apply, Fresh, Reachable, ValidName, Label;
    LabelOk(n - 1);
    if n == 1 {
      FreshRoot(m);
      ReachableStart(Fresh(m), m.maxSize);
      ReachableStep(Fresh(m), Fresh(m), m, Create(ROOT_INO, Label(0), 0));
      FirstLink(m);
      t := Apply(m, Fresh(m), Create(ROOT_INO, Label(0), 0)).t;
    } else {
      var before := LinkedUpTo(m, n - 1);
      ReachableStep(Fresh(m), before, m, Link(2, ROOT_INO, Label(n - 1)));
      NextLink(m, before, n - 1);
      t := Apply(m, before, Link(2, ROOT_INO, Label(n - 1))).t;
    }
  }

  lemma {:induction false} FreshRoot(m: Mount)
    ensures IsDir(Fresh(m).inodes, ROOT_INO) && XattrNames(Fresh(m).xattrs, ROOT_INO) == {}
  {
  }

  /** A container, made of one `create` and 2^32 - 1 `link`s, whose file is reported without a link, so that
      the counts reported do not add up to its names. */
  lemma {:induction false} LinkCountWraps(m: Mount) returns (t: Tables)
    ensures Reachable(Fresh(m), m.maxSize, t) && 2 in t.inodes && !IsDir(t.inodes, 2)
    ensures |NamesOf(t.dentries, 2)| == TWO_TO_THE_32 && ToAttr(t, 2).nlink == 0
    ensures |t.dentries| != SumOver(NonDirs(t.inodes), Reported(t.inodes, t.dentries)) + |Dirs(t.inodes)| - 1
  {
    t := LinkedUpTo(m, TWO_TO_THE_32);
    assert NamesOf(t.dentries, 2) == t.dentries.Keys && |t.dentries| == |t.dentries.Keys|;
    hide Reachable, Label, Fresh, NamesOf, SumOver, Reported;
    CheckFindsNothing(m, m.maxSize, t);
    assert 2 in NonDirs(t.inodes) && !CountsFit(t.inodes, t.dentries);
  }

  // --- more attribute names than one answer says ---------------------------------------------

  /** The root has `n` attributes, with names of 32 bytes; the labels from `n` on are free. */
  ghost predicate Attributed(t: Tables, n: nat) {
    var names := XattrNames(t.xattrs, ROOT_INO);
    && IsDir(t.inodes, ROOT_INO) && |names| == n && (forall name <- names :: |name| == 32)
    && (forall i: nat :: n <= i < TWO_TO_THE_32 ==> Label(i) !in names)
  }

  lemma {:induction false} NameAdded(xattrs: Xattrs, ino: Ino, name: Name, value: Bytes)
    ensures XattrNames(xattrs[XattrKey(ino, name) := value], ino) == XattrNames(xattrs, ino) + {name}
  {
    var key := XattrKey(ino, name);
    assert key in xattrs[key := value] && key.name == name;
  }

  lemma {:induction false} NextAttribute(m: Mount, t: Tables, n: nat)
    requires Attributed(t, n) && n < TWO_TO_THE_32
    ensures Attributed(Apply(m, t, SetXattr(ROOT_INO, Label(n), [], false, false)).t, n + 1)
  {
    LabelOk(n);
    hide Label, XattrNames, ValidName;
    var after := t.xattrs[XattrKey(ROOT_INO, Label(n)) := []];
    assert Apply(m, t, SetXattr(ROOT_INO, Label(n), [], false, false)).t == t.(xattrs := after);
    hide Apply;
    NameAdded(t.xattrs, ROOT_INO, Label(n), []);
    forall i: nat | n + 1 <= i < TWO_TO_THE_32 ensures Label(i) !in XattrNames(after, ROOT_INO) {
      LabelsDiffer(n, i);
    }
  }

  lemma {:induction false} AttributedUpTo(m: Mount, n: nat) returns (t: Tables)
    requires n <= TWO_TO_THE_32
    ensures Reachable(Fresh(m), m.maxSize, t) && Attributed(t, n)
  {
    hide Apply, Fresh, Reachable, Label;
    if n == 0 {
      FreshRoot(m);
      ReachableStart(Fresh(m), m.maxSize);
      t := Fresh(m);
    } else {
      var before := AttributedUpTo(m, n - 1);
      LabelOk(n - 1);
      ReachableStep(Fresh(m), before, m, SetXattr(ROOT_INO, Label(n - 1), [], false, false));
      NextAttribute(m, before, n - 1);
      t := Apply(m, before, SetXattr(ROOT_INO, Label(n - 1), [], false, false)).t;
    }
  }

  lemma {:induction false} ListSizeIs(names: seq<Name>)
    requires forall i :: 0 <= i < |names| ==> |names[i]| == 32
    ensures ListSize(names) == 33 * |names|
  {
    if names == [] {
    } else {
      ListSizeIs(names[1..]);
    }
  }

  /** A container whose root has a list of attributes of 2^32 + 29 bytes: a probe says 29, and a call with
      that much room fails. */
  lemma {:induction false} ListTooLong(m: Mount) returns (t: Tables)
    ensures Reachable(Fresh(m), m.maxSize, t)
    ensures ListReply(t.xattrs, ROOT_INO, 0) == Size(29) && ListReply(t.xattrs, ROOT_INO, 29).Failed?
  {
    hide Reachable, Fresh, Inv, Label, Sorted, SplitAtNul, ListReply, XattrNames;
    t := AttributedUpTo(m, 130150525);
    FreshInv(m);
    ReachableInv(Fresh(m), m.maxSize, t);
    ListXattrProbe(t, ROOT_INO);
    var names := XattrNames(t.xattrs, ROOT_INO);
    SortedIsOrder(names);
    forall i | 0 <= i < |Sorted(names)| ensures |Sorted(names)[i]| == 32 {
      assert Sorted(names)[i] in names;
    }
    ListSizeIs(Sorted(names));
  }
}
