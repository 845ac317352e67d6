/** A single to-do item (`Tarea`) and its one-line text rendering (`__str__`). */
module Tasks {
  import opened Sequences

  datatype Option<T> = None | Some(value: T)

  /** A task: its id, its name and whether it has been completed.
      The list always creates tasks with `completed == false`. */
  datatype Task = Task(id: int, name: string, completed: bool)

  predicate IsDigit(c: char) {
    '0' <= c <= '9'
  }

  predicate AllDigits(s: string) {
    forall i :: 0 <= i < |s| ==> IsDigit(s[i])
  }

  function DigitChar(d: nat): (c: char)
    requires d < 10
    ensures IsDigit(c) && c as int - '0' as int == d
  {
    ('0' as int + d) as char
  }

  /** Decimal notation of a natural number, without leading zeros. */
  function NatToString(n: nat): (r: string)
    ensures |r| >= 1 && AllDigits(r)
  {
    if n < 10 then [DigitChar(n)] else NatToString(n / 10) + [DigitChar(n % 10)]
  }

  /** Decimal notation of an integer, with a leading '-' when negative (as `str(int)`). */
  function IntToString(i: int): (r: string)
    ensures |r| >= 1
    ensures forall j :: 0 <= j < |r| ==> r[j] != '.'
  {
    if i < 0 then "-" + NatToString(-i) else NatToString(i)
  }

  /** The bracketed status label that ends a rendered task. */
  function StatusSuffix(completed: bool): (r: string) {
    if completed then " [Completada]" else " [Pendiente]"
  }

  /** `Tarea.__str__`: "<id>. <name> [Completada]" or "<id>. <name> [Pendiente]". */
  function Render(t: Task): (r: string)
    ensures HasSuffix(r, StatusSuffix(t.completed))
    ensures HasSuffix(r, StatusSuffix(true)) <==> t.completed
  {
    var head := IntToString(t.id) + ". " + t.name;
    EndsWithStatus(head, t.completed);
    head + StatusSuffix(t.completed)
  }

  /** A line ending in a status suffix ends in the completed suffix exactly when the
      status is completed. */
  lemma EndsWithStatus(head: string, completed: bool)
    ensures HasSuffix(head + StatusSuffix(completed), StatusSuffix(completed))
    ensures HasSuffix(head + StatusSuffix(completed), StatusSuffix(true)) <==> completed
  {
    var suffix := StatusSuffix(completed);
    var r := head + suffix;
    assert r[|r| - |suffix|..] == suffix;
    if !completed {
      assert r[|r| - 2] == suffix[|suffix| - 2] == 'e';
    }
  }

  predicate HasSuffix(s: string, suffix: string) {
    |suffix| <= |s| && s[|s| - |suffix|..] == suffix
  }

  /** Index of the first occurrence of `c` in `s`, or `|s|` when there is none. */
  function IndexOf(s: string, c: char): (i: nat)
    ensures i <= |s|
    ensures i < |s| ==> s[i] == c
    ensures forall j :: 0 <= j < i ==> s[j] != c
  {
    if |s| == 0 then 0 else if s[0] == c then 0 else 1 + IndexOf(s[1..], c)
  }

  /** Value of a string of decimal digits. */
  function DigitsValue(s: string): (n: nat)
    requires AllDigits(s)
  {
    if |s| == 0 then 0 else DigitsValue(s[..|s| - 1]) * 10 + (s[|s| - 1] as int - '0' as int)
  }

  /** Reads an optionally negative decimal integer. */
  function ParseInt(s: string): (r: Option<int>) {
    if |s| > 1 && s[0] == '-' && AllDigits(s[1..]) then Some(-(DigitsValue(s[1..]) as int))
    else if |s| > 0 && AllDigits(s) then Some(DigitsValue(s))
    else None
  }

  /** Splits "<name> [<label>]" into the name and the status the label stands for. */
  function ParseStatus(body: string): (r: Option<(string, bool)>) {
    if HasSuffix(body, StatusSuffix(true)) then
      Some((body[..|body| - |StatusSuffix(true)|], true))
    else if HasSuffix(body, StatusSuffix(false)) then
      Some((body[..|body| - |StatusSuffix(false)|], false))
    else None
  }

  /** Reads back a line produced by `Render`: the id runs up to the first '.',
      then ". ", the name, and a status suffix. */
  function ParseRendered(s: string): (r: Option<Task>) {
    var p := IndexOf(s, '.');
    if p + 2 > |s| || s[p + 1] != ' ' then None
    else
      match (ParseInt(s[..p]), ParseStatus(s[p + 2..]))
      case (Some(id), Some((name, completed))) => Some(Task(id, name, completed))
      case _ => None
  }

  lemma {:induction false} NatToStringRoundTrip(n: nat)
    ensures DigitsValue(NatToString(n)) == n
  {
    if n >= 10 {
      var s := NatToString(n);
      assert s[..|s| - 1] == NatToString(n / 10);
      NatToStringRoundTrip(n / 10);
    }
  }

  lemma IntToStringRoundTrip(i: int)
    ensures ParseInt(IntToString(i)) == Some(i)
  {
    if i < 0 {
      NatToStringRoundTrip(-i);
      assert IntToString(i)[1..] == NatToString(-i);
    } else {
      NatToStringRoundTrip(i);
    }
  }

  lemma {:induction false} IndexOfFirst(a: string, b: string, c: char)
    requires forall j :: 0 <= j < |a| ==> a[j] != c
    requires |b| > 0 && b[0] == c
    ensures IndexOf(a + b, c) == |a|
  {
    if |a| > 0 {
      assert (a + b)[1..] == a[1..] + b;
      IndexOfFirst(a[1..], b, c);
    }
  }

  lemma StatusRoundTrip(name: string, completed: bool)
    ensures ParseStatus(name + StatusSuffix(completed)) == Some((name, completed))
  {
    var body := name + StatusSuffix(completed);
    assert body[..|body| - |StatusSuffix(completed)|] == name;
    assert body[|body| - |StatusSuffix(completed)|..] == StatusSuffix(completed);
    if !completed {
      assert body[|body| - 2] == 'e';
    }
  }

  /** The pieces `ParseRendered` cuts out of "<a>. <b>", where `a` holds no '.'. */
  lemma {:induction false} LayoutSlices(a: string, b: string)
    requires forall j :: 0 <= j < |a| ==> a[j] != '.'
    ensures var s := a + (". " + b);
      IndexOf(s, '.') == |a| && |a| + 2 <= |s| && s[|a| + 1] == ' ' &&
      s[..|a|] == a && s[|a| + 2..] == b
  {
    var s := a + (". " + b);
    IndexOfFirst(a, ". " + b, '.');
    assert s[..|a|] == a;
    assert s[|a| + 2..] == b;
  }

  /** What `ParseRendered` needs to find in a line to read back `t`. */
  lemma ParseFromPieces(s: string, p: nat, t: Task)
    requires IndexOf(s, '.') == p && p + 2 <= |s| && s[p + 1] == ' '
    requires ParseInt(s[..p]) == Some(t.id)
    requires ParseStatus(s[p + 2..]) == Some((t.name, t.completed))
    ensures ParseRendered(s) == Some(t)
  {
  }

  /** Rendering loses nothing: the id, the name and the status can all be read back. */
  lemma RenderRoundTrip(t: Task)
    ensures ParseRendered(Render(t)) == Some(t)
  {
    var idText := IntToString(t.id);
    var body := t.name + StatusSuffix(t.completed);
    var s := idText + (". " + body);
    Regroup(idText, ". ", t.name, StatusSuffix(t.completed));
    assert Render(t) == s;
    LayoutSlices(idText, body);
    IntToStringRoundTrip(t.id);
    StatusRoundTrip(t.name, t.completed);
    ParseFromPieces(s, |idText|, t);
  }
}
