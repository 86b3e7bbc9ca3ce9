/**
 Rotating the log files (src/log/fs.c:216-303) in their directory, a map from file names to
 contents. Renaming succeeds when there is a file to rename, and replaces a file already there.
 */
module LogRotation {
  import opened Options
  import opened Strings

  type Files = map<string, string>

  function At(files: Files, f: string): Option<string> {
    if f in files then Some(files[f]) else None
  }

  /** The i-th rotated file. */
  function Numbered(base: string, i: nat): string {
    base + "." + Decimal(i)
  }

  function LastDot(s: string): (r: Option<nat>)
    ensures r.Some? ==> r.value < |s| && s[r.value] == '.' && forall j :: r.value < j < |s| ==> s[j] != '.'
    ensures r.None? ==> '.' !in s
  {
    if s == "" then None
    else if s[|s| - 1] == '.' then Some(|s| - 1)
    else LastDot(s[..|s| - 1])
  }

  /** The number behind the last dot of a directory entry, if what is in front of it is base. */
  function Suffix(base: string, entry: string): Option<int> {
    var dot := LastDot(entry);
    if dot.Some? && dot.value == |base| && base <= entry then Some(Atoi(entry[dot.value + 1..])) else None
  }

  ghost predicate IsNumbered(base: string, f: string) {
    exists i: nat :: i > 0 && f == Numbered(base, i)
  }

  lemma {:induction false} NumberedParts(base: string, i: nat)
    ensures Suffix(base, Numbered(base, i)) == Some(i)
    ensures Numbered(base, i) != base && Numbered(base, i) != LockName(base)
  {
    var s := Numbered(base, i);
    var d := Decimal(i);
    assert s[|base|] == '.' && s[|base| + 1..] == d;
    assert forall j :: 0 <= j < |d| ==> IsDigit(d[j]) && s[|base| + 1 + j] == d[j];
    assert forall j :: |base| < j < |s| ==> s[j] == d[j - |base| - 1];
    AtoiOfDecimal(i);
    assert LockName(base)[|base|] == '-';
  }

  lemma {:induction false} NumberedInjective(base: string, i: nat, j: nat)
    requires Numbered(base, i) == Numbered(base, j)
    ensures i == j
  {
    NumberedParts(base, i);
    NumberedParts(base, j);
  }

  function LockName(base: string): string {
    base + "-lck"
  }

  class Directory {
    var files: Files

    method Rename(oldname: string, newname: string) returns (ok: bool)
      requires oldname != newname
      modifies this
      ensures ok == (oldname in old(files))
      ensures At(files, newname) == if ok then At(old(files), oldname) else At(old(files), newname)
      ensures At(files, oldname) == None
      ensures forall f :: f != oldname && f != newname ==> At(files, f) == At(old(files), f)
    {
      ok := oldname in files;
      if ok {
        files := (files - {oldname})[newname := files[oldname]];
      }
    }

    /** The highest number among the rotated files, or 0; entries come in any order. */
    method HighestSuffix(base: string) returns (max: nat)
      ensures forall f, v :: f in files && Suffix(base, f) == Some(v) ==> v <= max
      ensures max > 0 ==> exists f :: f in files && Suffix(base, f) == Some(max)
    {
      max := 0;
      var rest := files.Keys;
      while rest != {}
        invariant rest <= files.Keys
        invariant forall f, v :: f in files && f !in rest && Suffix(base, f) == Some(v) ==> v <= max
        invariant max > 0 ==> exists f :: f in files && Suffix(base, f) == Some(max)
        decreases |rest|
      {
        var entry :| entry in rest;
        rest := rest - {entry};
        var pos := LastDot(entry);
        if pos.Some? && Atoi(entry[pos.value + 1..]) > max && pos.value == |base| && base <= entry {
          max := Atoi(entry[pos.value + 1..]);
          assert Suffix(base, entry) == Some(max);
        }
      }
    }

    /** Renames the i-th rotated file to the (i+1)-th, where there is none. */
    method MoveUp(base: string, i: nat)
      requires i > 0 && Slot(files, base, i + 1) == None
      modifies this
      ensures forall j: nat :: Slot(files, base, j) ==
                if j == i + 1 then Slot(old(files), base, i) else if j == i then None else Slot(old(files), base, j)
      ensures forall f :: !IsNumbered(base, f) ==> At(files, f) == At(old(files), f)
    {
      var newname := Numbered(base, i + 1);
      var oldname := Numbered(base, i);
      NumbersDiffer(base);
      var ok := Rename(oldname, newname);
    }

    /** Moves every numbered file up by one, the highest number first. */
    method ShiftNumbered(base: string, max: nat)
      requires forall i: nat :: i > max ==> Slot(files, base, i) == None
      modifies this
      ensures Slot(files, base, 1) == None
      ensures forall i: nat :: i > 1 ==> Slot(files, base, i) == Slot(old(files), base, i - 1)
      ensures forall f :: !IsNumbered(base, f) ==> At(files, f) == At(old(files), f)
    {
      hide Slot, At;
      var i := max;
      ghost var start := files;
      while i > 0
        invariant 0 <= i <= max
        invariant Slot(files, base, i + 1) == None
        invariant forall j: nat :: j > i + 1 ==> Slot(files, base, j) == Slot(start, base, j - 1)
        invariant forall j: nat :: 0 < j <= i ==> Slot(files, base, j) == Slot(start, base, j)
        invariant forall f :: !IsNumbered(base, f) ==> At(files, f) == At(start, f)
      {
        MoveUp(base, i);
        i := i - 1;
      }
    }

    /** `logfile_rotate`. It does nothing while another rotation holds the lock; otherwise the
        main file becomes number 1 and every numbered file goes up by one. */
    method Rotate(base: string) returns (result: bool)
      modifies this
      ensures base + "-lck" in old(files) ==> !result && files == old(files)
      ensures base + "-lck" !in old(files) ==> result == (base in old(files)) && IsRotated(old(files), files, base)
    {
      if LockName(base) in files {
        return false;
      }
      LockIsNoLog(base);
      ghost var start := files;
      files := files[LockName(base) := ""];
      var max := HighestSuffix(base);
      forall i: nat | i > max ensures Slot(files, base, i) == None {
        NumberedParts(base, i);
      }
      ghost var locked := files;
      forall i: nat ensures Slot(locked, base, i) == Slot(start, base, i) {
        NumberedParts(base, i);
      }
      ShiftNumbered(base, max);
      ghost var shifted := files;
      NumberedParts(base, 1);
      result := Rename(base, Numbered(base, 1));
      files := files - {LockName(base)};
      forall i: nat | i > 1 ensures Slot(files, base, i) == Slot(start, base, i - 1) {
        NumberedParts(base, i);
        NumbersDiffer(base);
        assert Slot(shifted, base, i) == Slot(locked, base, i - 1);
      }
      forall f | f != base && !IsNumbered(base, f) ensures At(files, f) == At(start, f) {
        assert f != LockName(base) ==> At(shifted, f) == At(locked, f);
      }
    }
  }

  /** The content of the j-th rotated file. */
  function Slot(files: Files, base: string, j: nat): Option<string> {
    At(files, Numbered(base, j))
  }

  lemma {:induction false} NumbersDiffer(base: string)
    ensures forall i: nat, j: nat {:trigger Numbered(base, i), Numbered(base, j)} :: i != j ==>
      Numbered(base, i) != Numbered(base, j)
  {
    forall i: nat, j: nat | i != j ensures Numbered(base, i) != Numbered(base, j) {
      if Numbered(base, i) == Numbered(base, j) {
        NumberedInjective(base, i, j);
      }
    }
  }

  lemma {:induction false} LockIsNoLog(base: string)
    ensures LockName(base) != base && !IsNumbered(base, LockName(base)) && !IsNumbered(base, base)
  {
    forall i: nat ensures LockName(base) != Numbered(base, i) && base != Numbered(base, i) {
      NumberedParts(base, i);
    }
  }

  /** The exact shift: new number i+1 is old number i, gaps included; new number 1 is the old
      main file; there is no main file; every other file is as it was. */
  ghost predicate IsRotated(before: Files, after: Files, base: string) {
    && (forall i: nat :: i > 1 ==> Slot(after, base, i) == Slot(before, base, i - 1))
    && Slot(after, base, 1) == At(before, base)
    && At(after, base) == None
    && (forall f :: f != base && !IsNumbered(base, f) ==> At(after, f) == At(before, f))
  }

  // ----- nothing is lost

  /** Where a file is after the rotation. */
  ghost function NewName(base: string, f: string): string {
    if f == base then Numbered(base, 1)
    else if IsNumbered(base, f) then (var i: nat :| i > 0 && f == Numbered(base, i); Numbered(base, i + 1))
    else f
  }

  /** Every file is still there under its new name, no two under the same, and there are no
      others. */
  lemma {:induction false} RotationLosesNothing(before: Files, after: Files, base: string)
    requires IsRotated(before, after, base)
    ensures forall f :: f in before ==> NewName(base, f) in after && after[NewName(base, f)] == before[f]
    ensures forall f, g :: f in before && g in before && f != g ==> NewName(base, f) != NewName(base, g)
    ensures forall h :: h in after ==> exists f :: f in before && NewName(base, f) == h
  {
    LockIsNoLog(base);
    forall f | f in before ensures NewName(base, f) in after && after[NewName(base, f)] == before[f] {
      NewNameHolds(before, after, base, f);
    }
    forall f, g | f in before && g in before && f != g ensures NewName(base, f) != NewName(base, g) {
      NewNamesDiffer(base, f, g);
    }
    forall h | h in after ensures exists f :: f in before && NewName(base, f) == h {
      var f := OldName(before, after, base, h);
    }
  }

  lemma {:induction false} NewNameOfNumbered(base: string, i: nat)
    requires i > 0
    ensures NewName(base, Numbered(base, i)) == Numbered(base, i + 1)
  {
    var f := Numbered(base, i);
    NumberedParts(base, i);
    assert IsNumbered(base, f);
    var j: nat :| j > 0 && f == Numbered(base, j) && NewName(base, f) == Numbered(base, j + 1);
    NumberedInjective(base, i, j);
  }

  lemma {:induction false} NewNameHolds(before: Files, after: Files, base: string, f: string)
    requires IsRotated(before, after, base) && f in before
    ensures NewName(base, f) in after && after[NewName(base, f)] == before[f]
  {
    LockIsNoLog(base);
    if f != base && IsNumbered(base, f) {
      var i: nat :| i > 0 && f == Numbered(base, i);
      NewNameOfNumbered(base, i);
      assert Slot(after, base, i + 1) == Slot(before, base, i);
    } else if f == base {
      assert Slot(after, base, 1) == At(before, base);
    } else {
      assert At(after, f) == At(before, f);
    }
  }

  lemma {:induction false} NewNamesDiffer(base: string, f: string, g: string)
    requires f != g
    ensures NewName(base, f) != NewName(base, g)
  {
    var i := Rank(base, f);
    var j := Rank(base, g);
    NumbersDiffer(base);
  }

  /** The number of a log file, with 0 for the main file; None for any other file. */
  lemma {:induction false} Rank(base: string, f: string) returns (r: Option<nat>)
    ensures r.Some? ==> NewName(base, f) == Numbered(base, r.value + 1)
    ensures r.Some? ==> f == (if r.value == 0 then base else Numbered(base, r.value))
    ensures r.None? ==> NewName(base, f) == f && f != base && forall i: nat :: i > 0 ==> f != Numbered(base, i)
  {
    if f == base {
      r := Some(0);
    } else if IsNumbered(base, f) {
      var i: nat :| i > 0 && f == Numbered(base, i);
      NewNameOfNumbered(base, i);
      r := Some(i);
    } else {
      r := None;
    }
  }

  lemma {:induction false} OldName(before: Files, after: Files, base: string, h: string) returns (f: string)
    requires IsRotated(before, after, base) && h in after
    ensures f in before && NewName(base, f) == h
  {
    LockIsNoLog(base);
    var r := Rank(base, h);
    if r.None? {
      f := h;
      assert At(after, h) == At(before, h);
    } else if r.value == 1 {
      f := base;
      assert Slot(after, base, 1) == At(before, base);
    } else {
      assert h != base by { assert At(after, base) == None; }
      f := Numbered(base, r.value - 1);
      NewNameOfNumbered(base, r.value - 1);
      assert Slot(after, base, r.value) == Slot(before, base, r.value - 1);
    }
  }
}
