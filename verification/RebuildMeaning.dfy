/**
 The rebuilt config text, piece by piece: one piece for each line of the old text, in its place, and
 one for each managed key that had no line. It is told from the lines alone, without the code that
 finds them, matches keys or keeps track of what it has seen.
 */
module RebuildMeaning {
  import opened Bytes
  import opened ConfigText
  import opened ConfigValues
  import opened ConfigRebuild
  import opened ConfigLaws

  /** The lines, each with its line break. */
  function Text(lines: seq<seq<byte>>): seq<byte> {
    if lines == [] then [] else Text(lines[..|lines| - 1]) + (lines[|lines| - 1] + [10])
  }

  /** How a line of each managed key starts. */
  function Word(k: nat): seq<byte> {
    if k == 0 then Ascii("BOOT_ORDER=")
    else if k == 1 then Ascii("BOOT_UART=")
    else if k == 2 then Ascii("POWER_OFF_ON_HALT=")
    else if k == 3 then Ascii("WAKE_ON_GPIO=")
    else Ascii("PSU_MAX_CURRENT=")
  }

  predicate StartsWith(line: seq<byte>, word: seq<byte>) {
    |word| <= |line| && line[..|word|] == word
  }

  /** The managed key of a line; 5 for any other line. */
  function Kind(line: seq<byte>): nat {
    if StartsWith(line, Word(0)) then 0
    else if StartsWith(line, Word(1)) then 1
    else if StartsWith(line, Word(2)) then 2
    else if StartsWith(line, Word(3)) then 3
    else if StartsWith(line, Word(4)) then 4
    else 5
  }

  /** One of the first `n` lines has the key. */
  ghost predicate Seen(lines: seq<seq<byte>>, n: nat, k: nat) {
    exists j :: 0 <= j < n && j < |lines| && Kind(lines[j]) == k
  }

  function Flag(n: nat): seq<byte> {
    if n == 0 then Ascii("0") else Ascii("1")
  }

  function Spelled(k: nat, v: Values): seq<byte> {
    if k == 0 then v.bootOrder
    else if k == 1 then Flag(v.bootUart)
    else if k == 2 then Flag(v.powerOffOnHalt)
    else if k == 3 then Flag(v.wakeOnGpio)
    else if v.psuMaxCurrent == 3000 then Ascii("3000")
    else Ascii("5000")
  }

  /** The new line of a key; none for an automatic PSU current. */
  function Entry(k: nat, v: Values): seq<byte> {
    if k == 4 && v.psuMaxCurrent == 0 then [] else Word(k) + Spelled(k, v) + [10]
  }

  /** What an empty text stands for: "0xf41", all off but WAKE_ON_GPIO, automatic current. */
  const ASSUMED := Values([48, 120, 102, 52, 49], 0, 0, 1, 0)

  predicate Differs(k: nat, v: Values) {
    if k == 0 then v.bootOrder != ASSUMED.bootOrder
    else if k == 1 then v.bootUart != ASSUMED.bootUart
    else if k == 2 then v.powerOffOnHalt != ASSUMED.powerOffOnHalt
    else if k == 3 then v.wakeOnGpio != ASSUMED.wakeOnGpio
    else v.psuMaxCurrent != ASSUMED.psuMaxCurrent
  }

  lemma EmptyReads()
    ensures FromText([]) == ASSUMED
  {
  }

  /** A line of no managed key stays; the first line of a key becomes the new one, later ones go; then, key by key, a line
      for each that had none and whose value is not what its absence means. */
  ghost function Piece(lines: seq<seq<byte>>, v: Values, i: nat): seq<byte> {
    if i < |lines| then
      if Kind(lines[i]) == 5 then lines[i] + [10]
      else if Seen(lines, i, Kind(lines[i])) then []
      else Entry(Kind(lines[i]), v)
    else if Seen(lines, |lines|, i - |lines|) || !Differs(i - |lines|, v) then []
    else Entry(i - |lines|, v)
  }

  /** The room a piece must find: its own length for a line that stays, 64 bytes for one that is written. */
  ghost function Room(lines: seq<seq<byte>>, v: Values, i: nat): nat {
    if i < |lines| then
      if Kind(lines[i]) == 5 then |lines[i]| + 1
      else if Seen(lines, i, Kind(lines[i])) then 0
      else 64
    else if Seen(lines, |lines|, i - |lines|) || !Differs(i - |lines|, v) then 0
    else 64
  }

  /** The first `n` pieces. */
  ghost function Pieces(lines: seq<seq<byte>>, v: Values, n: nat): seq<byte> {
    if n == 0 then [] else Pieces(lines, v, n - 1) + Piece(lines, v, n - 1)
  }

  ghost predicate Overflows(lines: seq<seq<byte>>, v: Values, cap: nat, i: nat) {
    Room(lines, v, i) > 0 && |Pieces(lines, v, i)| + Room(lines, v, i) > cap
  }

  ghost predicate Spills(lines: seq<seq<byte>>, v: Values, cap: nat, from: nat, to: nat) {
    exists i: nat :: from <= i < to && Overflows(lines, v, cap, i)
  }

  // ----- one line -----

  lemma NameWord(k: nat)
    requires k < KEY_COUNT
    ensures Word(k) == KeyName(k) + [EQUALS]
  {
  }

  lemma HasKeyIs(line: seq<byte>, k: nat)
    requires k < KEY_COUNT
    ensures LineHasKey(line, KeyName(k)) <==> StartsWith(line, Word(k))
  {
    hide KeyName, Word;
    NameWord(k);
    var name := KeyName(k);
    if |line| > |name| {
      assert line[..|name| + 1] == line[..|name|] + [line[|name|]];
    }
  }

  lemma KindIs(line: seq<byte>)
    ensures Kind(line) == ManagedKey(line)
  {
    hide KeyName, Word, LineHasKey, StartsWith;
    HasKeyIs(line, 0);
    HasKeyIs(line, 1);
    HasKeyIs(line, 2);
    HasKeyIs(line, 3);
    HasKeyIs(line, 4);
    MatchUnrolled(line);
  }

  lemma MatchUnrolled(line: seq<byte>)
    ensures var k := ManagedKey(line);
      k <= 5 && (k < 5 ==> LineHasKey(line, KeyName(k))) && forall j :: 0 <= j < k ==> !LineHasKey(line, KeyName(j))
  {
  }

  lemma EntryIs(k: nat, v: Values)
    requires k < KEY_COUNT && Canonical(v)
    ensures Entry(k, v) == Formatted(k, v)
  {
    NameWord(k);
    hide KeyName, Word;
    if Emits(k, v) {
      SpelledIs(k, v);
    }
  }

  lemma SpelledIs(k: nat, v: Values)
    requires k < KEY_COUNT && Canonical(v) && Emits(k, v)
    ensures Spelled(k, v) == ValueText(k, v)
  {
    hide CanonicalOrder;
  }

  lemma DiffersIs(k: nat, v: Values)
    ensures k < KEY_COUNT ==> (Differs(k, v) <==> AppendWanted(k, v))
  {
  }

  // ----- the main loop -----

  /** Which keys the first `n` lines have. */
  ghost function SeenKeys(lines: seq<seq<byte>>, n: nat): (r: seq<bool>)
    ensures |r| == 5 && forall k :: 0 <= k < 5 ==> r[k] == Seen(lines, n, k)
  {
    [Seen(lines, n, 0), Seen(lines, n, 1), Seen(lines, n, 2), Seen(lines, n, 3), Seen(lines, n, 4)]
  }

  lemma SeenStep(lines: seq<seq<byte>>, n: nat, k: nat)
    requires n < |lines|
    ensures Seen(lines, n + 1, k) <==> Seen(lines, n, k) || Kind(lines[n]) == k
  {
    hide Kind;
  }

  lemma SeenKeysStep(lines: seq<seq<byte>>, n: nat)
    requires n < |lines|
    ensures SeenKeys(lines, n + 1) ==
      if Kind(lines[n]) < 5 then SeenKeys(lines, n)[Kind(lines[n]) := true] else SeenKeys(lines, n)
  {
    hide Kind, Seen;
    forall k | 0 <= k < 5 ensures Seen(lines, n + 1, k) <==> Seen(lines, n, k) || Kind(lines[n]) == k {
      SeenStep(lines, n, k);
    }
  }

  lemma SpillsStep(lines: seq<seq<byte>>, v: Values, cap: nat, from: nat, n: nat)
    requires from <= n
    ensures Spills(lines, v, cap, from, n + 1) <==> Spills(lines, v, cap, from, n) || Overflows(lines, v, cap, n)
    ensures !Spills(lines, v, cap, from, from)
  {
    hide Overflows;
  }

  lemma {:induction false} TextTerminated(lines: seq<seq<byte>>)
    ensures Terminated(Text(lines))
  {
  }

  lemma {:induction false} BodyPieces(lines: seq<seq<byte>>, v: Values, cap: nat, n: nat)
    requires Canonical(v) && n <= |lines| && forall i :: 0 <= i < |lines| ==> NoNewline(lines[i])
    ensures Body(Text(lines[..n]), Progress(UNSEEN, []), v, cap) ==
      if Spills(lines, v, cap, 0, n) then None else Some(Progress(SeenKeys(lines, n), Pieces(lines, v, n)))
  {
    hide Kind, ManagedKey, Formatted, Entry, Canonical, Body, Spills, NoNewline, SeenKeys;
    if n == 0 {
      BodyEnd(Progress(UNSEEN, []), v, cap);
      SpillsStep(lines, v, cap, 0, 0);
      NoneSeen(lines);
    } else {
      var line := lines[n - 1];
      BodyPieces(lines, v, cap, n - 1);
      assert lines[..n][..n - 1] == lines[..n - 1];
      TextTerminated(lines[..n - 1]);
      BodyConcat(Text(lines[..n - 1]), line + [10], Progress(UNSEEN, []), v, cap);
      SpillsStep(lines, v, cap, 0, n - 1);
      SeenKeysStep(lines, n - 1);
      KindIs(line);
      var q := Progress(SeenKeys(lines, n - 1), Pieces(lines, v, n - 1));
      BodyOne(line, q, v, cap);
      if Kind(line) < 5 {
        EntryIs(Kind(line), v);
      }
      LineStep(lines, v, cap, n - 1, q);
    }
  }

  lemma NoneSeen(lines: seq<seq<byte>>)
    ensures SeenKeys(lines, 0) == UNSEEN
  {
  }

  /** One piece of the main loop. */
  lemma LineStep(lines: seq<seq<byte>>, v: Values, cap: nat, i: nat, q: Progress)
    requires i < |lines| && q == Progress(SeenKeys(lines, i), Pieces(lines, v, i)) && Kind(lines[i]) <= 5
    ensures var k := Kind(lines[i]);
      && (Overflows(lines, v, cap, i) <==>
            if k == 5 then |q.out| + |lines[i]| + 1 > cap else !q.seen[k] && |q.out| + LINE_ROOM > cap)
      && (k < 5 && q.seen[k] ==> q.seen[k := true] == q.seen)
      && Pieces(lines, v, i + 1) ==
           if k == 5 then q.out + lines[i] + [NL] else if q.seen[k] then q.out else q.out + Entry(k, v)
  {
    hide Kind, Entry, Seen;
    assert Pieces(lines, v, i) + (lines[i] + [10]) == Pieces(lines, v, i) + lines[i] + [10];
  }

  // ----- the appended keys -----

  lemma {:induction false} AppendPieces(lines: seq<seq<byte>>, v: Values, cap: nat, k: nat)
    requires Canonical(v) && k <= 5
    ensures Append(k, Progress(SeenKeys(lines, |lines|), Pieces(lines, v, |lines| + k)), v, cap) ==
      if Spills(lines, v, cap, |lines| + k, |lines| + 5) then None else Some(Pieces(lines, v, |lines| + 5))
    decreases 5 - k
  {
    hide Kind, Formatted, Entry, Canonical, AppendWanted, Append, Spills, SeenKeys;
    var n, p := |lines| + k, Progress(SeenKeys(lines, |lines|), Pieces(lines, v, |lines| + k));
    AppendStep(k, p, v, cap);
    SpillsStep(lines, v, cap, n, n);
    if k < 5 {
      AppendPieces(lines, v, cap, k + 1);
      EntryIs(k, v);
      DiffersIs(k, v);
      SpillsFirst(lines, v, cap, n, |lines| + 5);
      KeyStep(lines, v, cap, k, p);
    }
  }

  lemma SpillsFirst(lines: seq<seq<byte>>, v: Values, cap: nat, from: nat, to: nat)
    requires from < to
    ensures Spills(lines, v, cap, from, to) <==> Overflows(lines, v, cap, from) || Spills(lines, v, cap, from + 1, to)
  {
    hide Overflows;
  }

  lemma SpillsBoth(lines: seq<seq<byte>>, v: Values, cap: nat, n: nat, to: nat)
    requires n <= to
    ensures Spills(lines, v, cap, 0, to) <==> Spills(lines, v, cap, 0, n) || Spills(lines, v, cap, n, to)
  {
    hide Overflows;
  }

  lemma KeyStep(lines: seq<seq<byte>>, v: Values, cap: nat, k: nat, p: Progress)
    requires k < 5 && p == Progress(SeenKeys(lines, |lines|), Pieces(lines, v, |lines| + k))
    ensures var skipped := p.seen[k] || !Differs(k, v);
      && (Overflows(lines, v, cap, |lines| + k) <==> !skipped && |p.out| + LINE_ROOM > cap)
      && Pieces(lines, v, |lines| + k + 1) == if skipped then p.out else p.out + Entry(k, v)
  {
    hide Kind, Entry, Seen, Differs;
  }

  // ----- the whole text -----

  lemma {:induction false} PiecesTerminated(lines: seq<seq<byte>>, v: Values, n: nat)
    ensures Terminated(Pieces(lines, v, n))
  {
    hide Piece, Terminated;
    if n > 0 {
      PiecesTerminated(lines, v, n - 1);
      PieceTerminated(lines, v, n - 1);
      JoinTerminated(Pieces(lines, v, n - 1), Piece(lines, v, n - 1));
    } else {
      JoinTerminated([], []);
    }
  }

  lemma PieceTerminated(lines: seq<seq<byte>>, v: Values, i: nat)
    ensures Terminated(Piece(lines, v, i))
  {
    hide Kind, Seen, Word, Spelled, Differs;
  }

  lemma JoinTerminated(a: seq<byte>, b: seq<byte>)
    ensures Terminated([]) && (Terminated(a) && Terminated(b) ==> Terminated(a + b))
  {
  }

  /** A text that lacks the last line break is rebuilt as if it had it. */
  lemma LastBreak(a: seq<byte>, line: seq<byte>, v: Values, cap: nat)
    requires Terminated(a) && NoNewline(line) && line != []
    ensures Build(a + line, v, cap) == Build(a + (line + [NL]), v, cap)
  {
    hide Append, ManagedKey, Formatted, Body;
    var start := Progress(UNSEEN, []);
    BodyConcat(a, line, start, v, cap);
    BodyConcat(a, line + [NL], start, v, cap);
    var q := Body(a, start, v, cap);
    if q.Some? {
      LineLenIs(line, |line|);
      assert line[..|line|] == line;
      BodyStep(line, q.value, v, cap);
      BodyOne(line, q.value, v, cap);
      var k := ManagedKey(line);
      if k == KEY_COUNT {
        var out := q.value.out + line;
        BodyEnd(q.value.(out := out + []), v, cap);
        assert out + [] == out && out[|out| - 1] == line[|line| - 1];
      } else {
        BodyEnd(q.value, v, cap);
        BodyEnd(Progress(q.value.seen[k := true], q.value.out + Formatted(k, v)), v, cap);
      }
    }
  }

  /** The rebuilt text of any text, with or without its last line break, is its pieces; or there is none, exactly when
      some piece does not find its room behind the pieces before it. */
  lemma RebuiltText(orig: seq<byte>, lines: seq<seq<byte>>, v: Values, cap: nat)
    requires Canonical(v) && forall i :: 0 <= i < |lines| ==> NoNewline(lines[i])
    requires orig == Text(lines) || (lines != [] && lines[|lines| - 1] != [] && orig + [10] == Text(lines))
    ensures Build(orig, v, cap) ==
      if exists i: nat :: i < |lines| + 5 && Overflows(lines, v, cap, i) then None
      else Some(Pieces(lines, v, |lines| + 5))
  {
    hide Append, Body, Pieces, Overflows, Canonical, NoNewline, SeenKeys;
    var n := |lines|;
    if orig != Text(lines) {
      var a, line := Text(lines[..n - 1]), lines[n - 1];
      TextTerminated(lines[..n - 1]);
      assert orig == (orig + [10])[..|orig|] == a + line;
      LastBreak(a, line, v, cap);
    }
    assert lines[..n] == lines;
    BodyPieces(lines, v, cap, n);
    PiecesTerminated(lines, v, n);
    AppendPieces(lines, v, cap, 0);
    SpillsBoth(lines, v, cap, n, n + 5);
    assert Build(Text(lines), v, cap) ==
      if Spills(lines, v, cap, 0, n + 5) then None else Some(Pieces(lines, v, n + 5));
  }

  /** The room is taken at its word: 64 bytes for a line of 12, and not one less. */
  lemma RoomIsInsisted()
    ensures var v := Values([48, 120, 102, 52, 49], 1, 0, 1, 0);
      Build([], v, 63) == None && Build([], v, 64) == Some(Ascii("BOOT_UART=1\n"))
  {
    var v := Values([48, 120, 102, 52, 49], 1, 0, 1, 0);
    hide Formatted;
    BodyNothing(v, 63);
    BodyNothing(v, 64);
    assert Formatted(1, v) == Ascii("BOOT_UART=1\n") by {
      EntryIs(1, v);
    }
    var p, q := Progress(UNSEEN, []), Progress(UNSEEN, Formatted(1, v));
    assert p.out + Formatted(1, v) == q.out;
    AppendStep(0, p, v, 63);
    AppendStep(1, p, v, 63);
    AppendStep(0, p, v, 64);
    AppendStep(1, p, v, 64);
    AppendStep(2, q, v, 64);
    AppendStep(3, q, v, 64);
    AppendStep(4, q, v, 64);
    AppendStep(5, q, v, 64);
  }
}
