/** The string conventions the cluster depends on: Python's `str.split` with a
    one-character separator, the job-id rule applied to a submission's output, the
    slot rule applied to a worker's name, and decimal text for integers (`%d`, `int`). */
module Strings {
  import opened Errors

  // ---------------------------------------------------------------------------
  // Splitting and joining
  // ---------------------------------------------------------------------------

  /** Python's `s.split(sep)`: the pieces between separators, in order; there is
      always at least one piece, and no piece contains the separator. */
  function Split(s: string, sep: char): (pieces: seq<string>)
    ensures |pieces| >= 1
    ensures forall i :: 0 <= i < |pieces| ==> sep !in pieces[i]
    decreases |s|
  {
    if s == [] then [""]
    else
      var rest := Split(s[1..], sep);
      if s[0] == sep then [""] + rest
      else [[s[0]] + rest[0]] + rest[1..]
  }

  /** Python's `sep.join(pieces)`. */
  function Join(pieces: seq<string>, sep: char): string
    requires |pieces| >= 1
    decreases |pieces|
  {
    if |pieces| == 1 then pieces[0] else pieces[0] + [sep] + Join(pieces[1..], sep)
  }

  /** Joining the pieces of a split gives back the original text. */
  lemma {:induction false} JoinSplit(s: string, sep: char)
    ensures Join(Split(s, sep), sep) == s
    decreases |s|
  {
    if s != [] {
      JoinSplit(s[1..], sep);
      var rest := Split(s[1..], sep);
      assert s == [s[0]] + s[1..];
      if s[0] == sep {
        var p := [""] + rest;
        assert Split(s, sep) == p;
        assert p[1..] == rest;
        assert Join(p, sep) == "" + [sep] + Join(rest, sep);
      } else {
        var p := [[s[0]] + rest[0]] + rest[1..];
        assert Split(s, sep) == p;
        if |rest| == 1 {
          assert Join(p, sep) == [s[0]] + rest[0];
        } else {
          assert p[1..] == rest[1..];
          assert Join(rest, sep) == rest[0] + [sep] + Join(rest[1..], sep);
          assert Join(p, sep) == [s[0]] + rest[0] + [sep] + Join(rest[1..], sep);
        }
      }
    }
  }

  /** Text without the separator splits into itself alone. */
  lemma {:induction false} SplitNoSeparator(s: string, sep: char)
    requires sep !in s
    ensures Split(s, sep) == [s]
    decreases |s|
  {
    if s != [] {
      assert s[0] != sep;
      assert forall c :: c in s[1..] ==> c in s;
      SplitNoSeparator(s[1..], sep);
      assert [s[0]] + s[1..] == s;
    }
  }

  lemma SplitConsSeparator(t: string, sep: char)
    ensures Split([sep] + t, sep) == [""] + Split(t, sep)
  {
    assert ([sep] + t)[1..] == t;
  }

  lemma SplitConsOther(c: char, t: string, sep: char)
    requires c != sep
    ensures Split([c] + t, sep) == [[c] + Split(t, sep)[0]] + Split(t, sep)[1..]
  {
    assert ([c] + t)[1..] == t;
  }

  /** A separator between two texts separates their pieces. */
  lemma {:induction false} SplitAround(a: string, b: string, sep: char)
    ensures Split(a + [sep] + b, sep) == Split(a, sep) + Split(b, sep)
    decreases |a|
  {
    if a == [] {
      assert a + [sep] + b == [sep] + b;
      SplitConsSeparator(b, sep);
    } else {
      var c, t := a[0], a[1..];
      assert a == [c] + t;
      assert a + [sep] + b == [c] + (t + [sep] + b);
      SplitAround(t, b, sep);
      if c == sep {
        SplitAroundSeparator(t, b, sep);
      } else {
        SplitAroundOther(c, t, b, sep);
      }
    }
  }

  lemma SplitAroundSeparator(t: string, b: string, sep: char)
    requires Split(t + [sep] + b, sep) == Split(t, sep) + Split(b, sep)
    ensures Split([sep] + (t + [sep] + b), sep) == Split([sep] + t, sep) + Split(b, sep)
  {
    SplitConsSeparator(t + [sep] + b, sep);
    SplitConsSeparator(t, sep);
    EmptyPieceAppend(Split(t, sep), Split(b, sep));
  }

  lemma SplitAroundOther(c: char, t: string, b: string, sep: char)
    requires c != sep
    requires Split(t + [sep] + b, sep) == Split(t, sep) + Split(b, sep)
    ensures Split([c] + (t + [sep] + b), sep) == Split([c] + t, sep) + Split(b, sep)
  {
    SplitConsOther(c, t + [sep] + b, sep);
    SplitConsOther(c, t, sep);
    HeadPieceAppend(c, Split(t, sep), Split(b, sep));
  }

  lemma EmptyPieceAppend(rt: seq<string>, rb: seq<string>)
    ensures [""] + (rt + rb) == ([""] + rt) + rb
  {
  }

  lemma HeadPieceAppend(c: char, rt: seq<string>, rb: seq<string>)
    requires |rt| >= 1
    ensures [[c] + (rt + rb)[0]] + (rt + rb)[1..] == ([[c] + rt[0]] + rt[1..]) + rb
  {
    assert (rt + rb)[0] == rt[0];
    assert (rt + rb)[1..] == rt[1..] + rb;
  }

  /** Splitting a join of separator-free pieces gives back the pieces. */
  lemma {:induction false} SplitJoin(pieces: seq<string>, sep: char)
    requires |pieces| >= 1
    requires forall i :: 0 <= i < |pieces| ==> sep !in pieces[i]
    ensures Split(Join(pieces, sep), sep) == pieces
    decreases |pieces|
  {
    SplitNoSeparator(pieces[0], sep);
    if |pieces| > 1 {
      var tail := pieces[1..];
      assert forall i :: 0 <= i < |tail| ==> tail[i] == pieces[i + 1];
      SplitJoin(tail, sep);
      SplitAround(pieces[0], Join(tail, sep), sep);
      assert pieces == [pieces[0]] + tail;
    }
  }

  /** The first piece of a split is the text up to the first separator. */
  lemma {:induction false} SplitHead(s: string, sep: char)
    ensures Split(s, sep)[0] <= s
    ensures |Split(s, sep)[0]| < |s| ==> s[|Split(s, sep)[0]|] == sep
    decreases |s|
  {
    if s != [] && s[0] != sep {
      SplitHead(s[1..], sep);
      var h := Split(s[1..], sep)[0];
      assert Split(s, sep)[0] == [s[0]] + h;
      assert s == [s[0]] + s[1..];
      if |h| < |s[1..]| {
        assert s[|h| + 1] == s[1..][|h|];
      }
    }
  }

  /** A split yields a single piece exactly when the separator does not occur. */
  lemma {:induction false} SplitSingle(s: string, sep: char)
    ensures |Split(s, sep)| == 1 <==> sep !in s
    decreases |s|
  {
    if s != [] {
      assert s == [s[0]] + s[1..];
      if s[0] != sep {
        SplitSingle(s[1..], sep);
        assert sep in s <==> sep in s[1..];
      } else {
        assert s[0] in s;
      }
    }
  }

  // ---------------------------------------------------------------------------
  // The job-id and slot-segment rules
  // ---------------------------------------------------------------------------

  /** `out.split('.')[0]`: the scheduler job id in a submission's output is the text
      before its first '.', or all of it when there is no '.'. */
  function JobId(out: string): (id: string)
    ensures id <= out
    ensures '.' !in id
    ensures |id| < |out| ==> out[|id|] == '.'
  {
    SplitHead(out, '.');
    Split(out, '.')[0]
  }

  /** A submission tool that echoes `<jobid>.<host>` yields `<jobid>`. */
  lemma JobIdOfEcho(id: string, host: string)
    requires '.' !in id
    ensures JobId(id + "." + host) == id
  {
    var out := id + "." + host;
    var j := JobId(out);
    assert out[|id|] == '.';
    assert |j| == |id|;
    assert j == out[..|j|];
    assert id == out[..|id|];
  }

  /** `name.split('-')[-2]`: the second-to-last '-' segment of a worker name, or None
      where Python raises IndexError because the name holds no '-'. */
  function SlotSegment(name: string): (seg: Option<string>)
    ensures seg.None? <==> '-' !in name
    ensures seg.Some? ==> '-' !in seg.value
  {
    SplitSingle(name, '-');
    var pieces := Split(name, '-');
    if |pieces| < 2 then None else Some(pieces[|pieces| - 2])
  }

  /** A name with exactly one '-' gives the part before it. */
  lemma SlotSegmentOfPair(a: string, b: string)
    requires '-' !in a && '-' !in b
    ensures SlotSegment(a + "-" + b) == Some(a)
  {
    assert a + "-" + b == a + ['-'] + b;
    SplitAround(a, b, '-');
    SplitNoSeparator(a, '-');
    SplitNoSeparator(b, '-');
  }

  /** The segment just before the last '-' is found whatever the prefix holds. */
  lemma SlotSegmentOfName(prefix: string, slot: string, suffix: string)
    requires '-' !in slot && '-' !in suffix
    ensures SlotSegment(prefix + "-" + slot + "-" + suffix) == Some(slot)
  {
    var tail := slot + "-" + suffix;
    assert prefix + "-" + slot + "-" + suffix == prefix + ['-'] + tail;
    SplitAround(prefix, tail, '-');
    SplitAround(slot, suffix, '-');
    SplitNoSeparator(slot, '-');
    SplitNoSeparator(suffix, '-');
    var pieces := Split(prefix, '-') + [slot] + [suffix];
    assert Split(prefix + "-" + slot + "-" + suffix, '-') == pieces;
    assert pieces[|pieces| - 2] == slot;
  }

  // ---------------------------------------------------------------------------
  // Decimal text
  // ---------------------------------------------------------------------------

  predicate IsDigit(c: char) { '0' <= c <= '9' }

  predicate AllDigits(s: string) { forall i :: 0 <= i < |s| ==> IsDigit(s[i]) }

  function DigitChar(d: nat): char
    requires d < 10
  {
    ('0' as int + d) as char
  }

  /** Python's `'%d' % n` for a natural number: its decimal digits. */
  function NatToString(n: nat): (s: string)
    ensures |s| >= 1 && AllDigits(s)
    ensures |s| > 1 ==> s[0] != '0'
    decreases n
  {
    if n < 10 then [DigitChar(n)] else NatToString(n / 10) + [DigitChar(n % 10)]
  }

  /** Python's `'%d' % i` for any integer. */
  function IntToString(i: int): string
  {
    if i < 0 then "-" + NatToString(-i) else NatToString(i)
  }

  function DigitsValue(s: string): nat
    requires AllDigits(s)
    decreases |s|
  {
    if s == [] then 0
    else DigitsValue(s[..|s| - 1]) * 10 + (s[|s| - 1] as int - '0' as int)
  }

  /** Python's `int(s)` restricted to plain decimal digits; None where it raises ValueError. */
  function ParseNat(s: string): Option<nat>
  {
    if |s| >= 1 && AllDigits(s) then Some(DigitsValue(s)) else None
  }

  lemma {:induction false} DigitsValueOfNat(n: nat)
    ensures DigitsValue(NatToString(n)) == n
    decreases n
  {
    var s := NatToString(n);
    if n < 10 {
      assert s[..0] == [];
    } else {
      DigitsValueOfNat(n / 10);
      assert s[..|s| - 1] == NatToString(n / 10);
    }
  }

  /** Formatting a slot number and parsing it back gives the slot number. */
  lemma ParseNatToString(n: nat)
    ensures ParseNat(NatToString(n)) == Some(n)
  {
    DigitsValueOfNat(n);
  }

  /** The slot rule inverts the worker-naming convention: a name made of any prefix,
      '-', the slot number in decimal, '-' and a suffix without '-' (the process
      index that `dask-worker` appends) yields that slot. */
  lemma SlotOfWorkerName(prefix: string, slot: nat, suffix: string)
    requires '-' !in suffix
    ensures SlotSegment(prefix + "-" + NatToString(slot) + "-" + suffix) == Some(NatToString(slot))
    ensures ParseNat(NatToString(slot)) == Some(slot)
  {
    SlotSegmentOfName(prefix, NatToString(slot), suffix);
    ParseNatToString(slot);
  }
}
