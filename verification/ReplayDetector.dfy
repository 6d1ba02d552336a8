/** The sliding-window replay detector, over a multiword bit vector shifted in place. */
module ReplayDetector {
  import opened Bits

  const WORD_MAX := 0x1_0000_0000_0000_0000

  /** A 64-bit word as its bits, least significant first. */
  type Word = w: bits | |w| == 64 witness Zero(64)

  /** All bits of a word vector, lowest word first. */
  function Flat(ws: seq<Word>): (s: seq<bool>)
    ensures |s| == 64 * |ws|
    ensures forall j :: 0 <= j < |s| ==> s[j] == ws[j / 64][j % 64]
  {
    seq(64 * |ws|, j requires 0 <= j < 64 * |ws| => ws[j / 64][j % 64])
  }

  function Chunks(n: nat): (c: nat)
    ensures c >= 1 && 64 * c >= n
  {
    if (n + 63) / 64 == 0 then 1 else (n + 63) / 64
  }

  /** The mask kept for the top word of an n-bit vector. */
  function TopMask(n: nat): Word {
    LowBits(64, 64 - n % 64)
  }

  /** What Lsh leaves at bit j of an n-bit vector: the shifted bit, unless the mask clears it. */
  predicate ShiftedBit(s: seq<bool>, n: nat, dist: nat, j: nat)
    requires j < |s| && |s| >= 64
  {
    j >= dist && s[j - dist] && (j >= |s| - 64 ==> TopMask(n)[j - (|s| - 64)])
  }

  function Shifted(s: seq<bool>, n: nat, dist: nat): (r: seq<bool>)
    requires |s| >= 64
    ensures |r| == |s|
    ensures forall j :: 0 <= j < |s| ==> r[j] == ShiftedBit(s, n, dist, j)
  {
    seq(|s|, j requires 0 <= j < |s| => ShiftedBit(s, n, dist, j))
  }

  /** Word i of a vector shifted up by dist, as the loop body computes it. */
  function ShiftedWord(ws: seq<Word>, dist: nat, i: nat): Word
    requires i < |ws|
  {
    Or(Shl(ws[i], dist), Carry(ws, dist / 64, dist % 64, i))
  }

  function Carry(ws: seq<Word>, chunk: nat, rest: nat, i: nat): Word
    requires i < |ws| && rest < 64
  {
    if i < chunk then Zero(64)
    else if i < chunk + 1 then Shl(ws[i - chunk], rest)
    else Or(Shl(ws[i - chunk], rest), Shr(ws[i - chunk - 1], 64 - rest))
  }

  lemma FlatAt(ws: seq<Word>, i: nat, k: nat)
    requires i < |ws| && k < 64
    ensures Flat(ws)[64 * i + k] == ws[i][k]
  {
    assert (64 * i + k) / 64 == i && (64 * i + k) % 64 == k;
  }

  /** Bit k of word i after moving up by whole words and rest bits. */
  predicate MovedBit(ws: seq<Word>, chunk: nat, rest: nat, i: nat, k: nat)
    requires i < |ws| && k < 64 && rest < 64
  {
    if i >= chunk && k >= rest then ws[i - chunk][k - rest]
    else i >= chunk + 1 && k < rest && ws[i - chunk - 1][k + 64 - rest]
  }

  lemma CarryBit(ws: seq<Word>, chunk: nat, rest: nat, i: nat, k: nat)
    requires i < |ws| && k < 64 && rest < 64
    ensures Carry(ws, chunk, rest, i)[k] == MovedBit(ws, chunk, rest, i, k)
  {
    if i == chunk {
      assert Shl(ws[i - chunk], rest)[k] == (k >= rest && ws[i - chunk][k - rest]);
    } else if i > chunk {
      var a, b := Shl(ws[i - chunk], rest), Shr(ws[i - chunk - 1], 64 - rest);
      assert a[k] == (k >= rest && ws[i - chunk][k - rest]);
      assert b[k] == (k < rest && ws[i - chunk - 1][k + 64 - rest]);
      assert Or(a, b)[k] == (a[k] || b[k]);
    }
  }

  /** The extra term of the loop body adds nothing to the carry. */
  lemma ExtraTerm(ws: seq<Word>, chunk: nat, rest: nat, i: nat, k: nat)
    requires i < |ws| && k < 64 && rest < 64 && Shl(ws[i], 64 * chunk + rest)[k]
    ensures MovedBit(ws, chunk, rest, i, k)
  {
    assert k >= 64 * chunk + rest && chunk == 0;
  }

  lemma ShiftedWordBit(ws: seq<Word>, dist: nat, i: nat, k: nat)
    requires i < |ws| && k < 64
    ensures ShiftedWord(ws, dist, i)[k] == MovedBit(ws, dist / 64, dist % 64, i, k)
  {
    CarryBit(ws, dist / 64, dist % 64, i, k);
    if Shl(ws[i], dist)[k] {
      assert dist == 64 * (dist / 64) + dist % 64;
      ExtraTerm(ws, dist / 64, dist % 64, i, k);
    }
  }

  lemma FlatBefore(ws: seq<Word>, chunk: nat, rest: nat, i: nat, k: nat)
    requires i < |ws| && k < 64 && rest < 64
    ensures var j := 64 * i + k - (64 * chunk + rest);
            (j >= 0 && Flat(ws)[j]) == MovedBit(ws, chunk, rest, i, k)
  {
    var j := 64 * i + k - (64 * chunk + rest);
    if i >= chunk && k >= rest {
      FlatAt(ws, i - chunk, k - rest);
      assert j == 64 * (i - chunk) + (k - rest);
    } else if i >= chunk + 1 {
      FlatAt(ws, i - chunk - 1, k + 64 - rest);
      assert j == 64 * (i - chunk - 1) + (k + 64 - rest);
    } else {
      assert j < 0;
    }
  }

  /** Shifting word by word and masking the top one shifts the whole bit string. */
  lemma WordsShift(ws: seq<Word>, shifted: seq<Word>, n: nat, dist: nat)
    requires |ws| == |shifted| > 0
    requires forall m :: 0 <= m < |ws| ==> shifted[m] == MaskedWord(ws, n, dist, m)
    ensures Flat(shifted) == Shifted(Flat(ws), n, dist)
  {
    forall j | 0 <= j < 64 * |ws|
      ensures Flat(shifted)[j] == ShiftedBit(Flat(ws), n, dist, j)
    {
      var i, k := j / 64, j % 64;
      assert j == 64 * i + k;
      WordsShiftBit(ws, n, dist, i, k);
    }
  }

  function MaskedWord(ws: seq<Word>, n: nat, dist: nat, i: nat): Word
    requires i < |ws|
  {
    if i == |ws| - 1 then And(ShiftedWord(ws, dist, i), TopMask(n)) else ShiftedWord(ws, dist, i)
  }

  lemma WordsShiftBit(ws: seq<Word>, n: nat, dist: nat, i: nat, k: nat)
    requires i < |ws| && k < 64
    ensures ShiftedBit(Flat(ws), n, dist, 64 * i + k) == MaskedWord(ws, n, dist, i)[k]
  {
    ShiftedWordBit(ws, dist, i, k);
    FlatBefore(ws, dist / 64, dist % 64, i, k);
    assert dist == 64 * (dist / 64) + dist % 64;
  }

  class FixedBigInt {
    const bits: array<Word>
    const n: nat
    const msbMask: Word

    ghost predicate Valid() {
      bits.Length == Chunks(n) && msbMask == TopMask(n)
    }

    constructor (n: nat)
      ensures Valid() && this.n == n && fresh(bits)
      ensures forall j :: 0 <= j < 64 * bits.Length ==> !Flat(bits[..])[j]
    {
      this.n := n;
      bits := new Word[Chunks(n)](_ => Zero(64));
      msbMask := TopMask(n);
    }

    method Lsh(dist: nat)
      requires Valid()
      modifies bits
      ensures Flat(bits[..]) == if dist == 0 then old(Flat(bits[..])) else Shifted(old(Flat(bits[..])), n, dist)
    {
      if dist == 0 {
        return;
      }
      ghost var ws := bits[..];
      ShiftWords(dist);
      var top := bits.Length - 1;
      bits[top] := And(bits[top], msbMask);
      WordsShift(ws, bits[..], n, dist);
    }

    /** The descending in-place loop: each word is rebuilt from words not yet overwritten. */
    method ShiftWords(dist: nat)
      requires Valid()
      modifies bits
      ensures forall m :: 0 <= m < bits.Length ==> bits[m] == ShiftedWord(old(bits[..]), dist, m)
    {
      var chunk, rest := dist / 64, dist % 64;
      ghost var ws := bits[..];
      for i := bits.Length downto 0
        invariant forall m :: 0 <= m < i ==> bits[m] == ws[m]
        invariant forall m :: i <= m < bits.Length ==> bits[m] == ShiftedWord(ws, dist, m)
      {
        var carry := CarryInto(i, chunk, rest, ws);
        bits[i] := Or(Shl(bits[i], dist), carry);
      }
    }

    /** What the words below bring into word i; they are still as they were. */
    method CarryInto(i: nat, chunk: nat, rest: nat, ghost ws: seq<Word>) returns (carry: Word)
      requires |ws| == bits.Length && i < bits.Length && rest < 64
      requires forall m :: 0 <= m <= i ==> bits[m] == ws[m]
      ensures carry == Carry(ws, chunk, rest, i)
    {
      carry := Zero(64);
      if i >= chunk {
        carry := Shl(bits[i - chunk], rest);
        if i >= chunk + 1 {
          carry := Or(carry, Shr(bits[i - chunk - 1], 64 - rest));
        }
      }
    }

    function Bit(i: nat): (r: bool)
      requires Valid()
      reads bits
      ensures r <==> i < n && Flat(bits[..])[i]
    {
      if i >= n then false else bits[i / 64][i % 64]
    }

    method SetBit(i: nat)
      requires Valid()
      modifies bits
      ensures Flat(bits[..]) == if i < n then old(Flat(bits[..]))[i := true] else old(Flat(bits[..]))
    {
      if i >= n {
        return;
      }
      ghost var ws := bits[..];
      bits[i / 64] := bits[i / 64][i % 64 := true];
      forall j | 0 <= j < 64 * bits.Length
        ensures Flat(bits[..])[j] == Flat(ws)[i := true][j]
      {
        if j / 64 == i / 64 && j % 64 == i % 64 {
          assert j == i;
        }
      }
      assert Flat(bits[..]) == Flat(ws)[i := true];
    }
  }

  // ---- the detector on values ------------------------------------------

  /** windowSize and maxSeq are fixed by the constructor; a maxSeq of zero makes accept divide by zero. */
  datatype Config = Config(window: nat, maxSeq: nat) {
    predicate Sound() {
      maxSeq >= 1 && window + maxSeq < WORD_MAX
    }
  }

  datatype Window = Window(latest: nat, mask: seq<bool>)

  predicate Shaped(cfg: Config, w: Window) {
    |w.mask| == 64 * Chunks(cfg.window) && w.latest <= cfg.maxSeq
  }

  function Initial(cfg: Config): (w: Window)
    ensures |w.mask| == 64 * Chunks(cfg.window) && w.latest == 0
  {
    Window(0, seq(64 * Chunks(cfg.window), _ => false))
  }

  predicate Admits(cfg: Config, w: Window, s: nat)
    requires Shaped(cfg, w)
  {
    if s > cfg.maxSeq then false
    else if s <= w.latest then
      w.latest < (cfg.window + s) % WORD_MAX
      && !(w.latest - s < cfg.window && w.mask[w.latest - s])
    else true
  }

  /** The window moved up to a new latest number, before that number's own bit is set. */
  function Moved(cfg: Config, w: Window, s: nat): (r: Window)
    requires Shaped(cfg, w)
    ensures |r.mask| == |w.mask|
  {
    if s > w.latest then Window(s, Shifted(w.mask, cfg.window, s - w.latest)) else w
  }

  function Marked(cfg: Config, w: Window, diff: nat): (r: Window)
    requires |w.mask| == 64 * Chunks(cfg.window)
    ensures |r.mask| == |w.mask| && r.latest == w.latest
  {
    if diff < cfg.window then Window(w.latest, w.mask[diff := true]) else w
  }

  function Advance(cfg: Config, w: Window, s: nat): (r: Window)
    requires Shaped(cfg, w) && cfg.Sound() && s <= cfg.maxSeq
    ensures Shaped(cfg, r)
  {
    var w1 := Moved(cfg, w, s);
    Marked(cfg, w1, (w1.latest - s) % cfg.maxSeq)
  }

  class SlidingWindowDetector {
    var latestSeq: nat
    const maxSeq: nat
    const windowSize: nat
    const mask: FixedBigInt

    ghost function Cfg(): Config {
      Config(windowSize, maxSeq)
    }

    ghost predicate Valid()
      reads this
    {
      mask.Valid() && mask.n == windowSize && latestSeq <= maxSeq && Cfg().Sound()
    }

    ghost function State(): (w: Window)
      reads this, mask.bits
      ensures Valid() ==> Shaped(Cfg(), w)
    {
      Window(latestSeq, Flat(mask.bits[..]))
    }

    constructor (windowSize: nat, maxSeq: nat)
      requires Config(windowSize, maxSeq).Sound()
      ensures Valid() && Cfg() == Config(windowSize, maxSeq) && State() == Initial(Cfg())
    {
      latestSeq := 0;
      this.maxSeq := maxSeq;
      this.windowSize := windowSize;
      mask := new FixedBigInt(windowSize);
      new;
      assert State().mask == Initial(Cfg()).mask;
    }

    method Check(s: nat) returns (ok: bool)
      requires Valid()
      ensures ok <==> Admits(Cfg(), State(), s)
    {
      if s > maxSeq {
        return false;
      }
      if s <= latestSeq {
        if latestSeq >= (windowSize + s) % WORD_MAX {
          return false;
        }
        if mask.Bit(latestSeq - s) {
          return false;
        }
      }
      return true;
    }

    /** The closure Check returns with a yes, called at once. */
    method Accept(s: nat) returns (latest: bool)
      requires Valid() && s <= maxSeq
      modifies this`latestSeq, mask.bits
      ensures Valid() && State() == Advance(Cfg(), old(State()), s)
      ensures latest <==> s == 0 || s > old(latestSeq)
    {
      latest := s == 0;
      if s > latestSeq {
        MoveTo(s);
        latest := true;
      }
      Mark((latestSeq - s) % maxSeq);
    }

    method MoveTo(s: nat)
      requires Valid() && latestSeq < s <= maxSeq
      modifies this`latestSeq, mask.bits
      ensures Valid() && latestSeq == s
      ensures Flat(mask.bits[..]) == Shifted(old(Flat(mask.bits[..])), windowSize, s - old(latestSeq))
    {
      mask.Lsh(s - latestSeq);
      latestSeq := s;
    }

    method Mark(diff: nat)
      requires Valid()
      modifies mask.bits
      ensures Valid() && State() == Marked(Cfg(), old(State()), diff)
    {
      mask.SetBit(diff);
    }
  }

  // ---- whole runs ------------------------------------------------------

  /** Feeds sequence numbers one after another; acc collects the accepted ones in order. */
  function Run(cfg: Config, w: Window, input: seq<nat>, acc: seq<nat>): (r: (Window, seq<nat>))
    requires Shaped(cfg, w) && cfg.Sound()
    ensures Shaped(cfg, r.0)
    decreases |input|
  {
    if input == [] then (w, acc)
    else if Admits(cfg, w, input[0]) then Run(cfg, Advance(cfg, w, input[0]), input[1..], acc + [input[0]])
    else Run(cfg, w, input[1..], acc)
  }

  predicate Distinct(s: seq<nat>) {
    forall i, j :: 0 <= i < j < |s| ==> s[i] != s[j]
  }

  /** The window shapes for which masking the top word and the diff modulus are harmless. */
  predicate Faithful(cfg: Config) {
    cfg.window == 0 || (cfg.window % 64 <= 32 && cfg.window <= cfg.maxSeq)
  }

  /** Bit j of the window says whether latest - j was accepted; nothing above latest was. */
  predicate Records(cfg: Config, w: Window, acc: seq<nat>)
    requires Shaped(cfg, w)
  {
    && (forall j :: 0 <= j < cfg.window && j <= w.latest ==> (w.mask[j] <==> w.latest - j in acc))
    && (forall a :: a in acc ==> a <= w.latest)
  }

  lemma MaskSparesTheWindow(cfg: Config, dist: nat, s: seq<bool>, j: nat)
    requires cfg.window % 64 <= 32 && |s| == 64 * Chunks(cfg.window) && j < cfg.window
    ensures ShiftedBit(s, cfg.window, dist, j) == (j >= dist && s[j - dist])
  {
    assert cfg.window % 64 == 0 || |s| - 64 == cfg.window - cfg.window % 64;
  }

  lemma CheckIsExact(cfg: Config, w: Window, acc: seq<nat>, s: nat)
    requires Shaped(cfg, w) && cfg.Sound() && Records(cfg, w, acc)
    ensures Admits(cfg, w, s) <==>
            s <= cfg.maxSeq && s !in acc && (s > w.latest || w.latest - s < cfg.window)
  {
    if s <= w.latest && w.latest - s < cfg.window {
      assert w.mask[w.latest - s] <==> w.latest - (w.latest - s) in acc;
    } else if s > w.latest {
      assert s !in acc;
    }
  }

  lemma SmallMod(a: nat, m: nat)
    requires a < m
    ensures a % m == a
  {
  }

  lemma MovedRecords(cfg: Config, w: Window, acc: seq<nat>, s: nat)
    requires Shaped(cfg, w) && Faithful(cfg) && Records(cfg, w, acc) && s <= cfg.maxSeq
    ensures Records(cfg, Moved(cfg, w, s), acc)
  {
    var r := Moved(cfg, w, s);
    forall j | 0 <= j < cfg.window && j <= r.latest
      ensures r.mask[j] <==> r.latest - j in acc
    {
      if s > w.latest {
        var d := s - w.latest;
        MaskSparesTheWindow(cfg, d, w.mask, j);
        assert j >= d ==> (w.mask[j - d] <==> w.latest - (j - d) in acc);
      }
    }
  }

  lemma AcceptRecords(cfg: Config, w: Window, acc: seq<nat>, s: nat)
    requires Shaped(cfg, w) && cfg.Sound() && Faithful(cfg) && Records(cfg, w, acc)
    requires Admits(cfg, w, s)
    ensures Records(cfg, Advance(cfg, w, s), acc + [s])
  {
    MovedRecords(cfg, w, acc, s);
    CheckIsExact(cfg, w, acc, s);
    var r := Moved(cfg, w, s);
    var diff := r.latest - s;
    if diff < cfg.window {
      SmallMod(diff, cfg.maxSeq);
      assert Advance(cfg, w, s) == Window(r.latest, r.mask[diff := true]);
    }
  }

  lemma {:induction false} RunRecords(cfg: Config, w: Window, input: seq<nat>, acc: seq<nat>)
    requires Shaped(cfg, w) && cfg.Sound() && Faithful(cfg) && Records(cfg, w, acc) && Distinct(acc)
    ensures var (w2, acc2) := Run(cfg, w, input, acc); Records(cfg, w2, acc2) && Distinct(acc2)
    decreases |input|
  {
    if input != [] {
      var s := input[0];
      CheckIsExact(cfg, w, acc, s);
      if Admits(cfg, w, s) {
        AcceptRecords(cfg, w, acc, s);
        RunRecords(cfg, Advance(cfg, w, s), input[1..], acc + [s]);
      } else {
        RunRecords(cfg, w, input[1..], acc);
      }
    }
  }

  ghost predicate NeverRepeats(cfg: Config)
    requires cfg.Sound()
  {
    forall input :: Distinct(Run(cfg, Initial(cfg), input, []).1)
  }

  lemma RunOfThree(cfg: Config, a: nat, b: nat, c: nat)
    requires cfg.Sound()
    requires Admits(cfg, Initial(cfg), a)
    requires Admits(cfg, Advance(cfg, Initial(cfg), a), b)
    requires Admits(cfg, Advance(cfg, Advance(cfg, Initial(cfg), a), b), c)
    ensures Run(cfg, Initial(cfg), [a, b, c], []).1 == [a, b, c]
  {
    var w0 := Initial(cfg);
    var w1 := Advance(cfg, w0, a);
    var w2 := Advance(cfg, w1, b);
    RunAdmits(cfg, w0, a, [b, c], []);
    RunAdmits(cfg, w1, b, [c], [a]);
    RunAdmits(cfg, w2, c, [], [a, b]);
    assert [a] + [b, c] == [a, b, c] && [b] + [c] == [b, c] && [c] + [] == [c];
    assert [] + [a] == [a] && [a] + [b] == [a, b] && [a, b] + [c] == [a, b, c];
  }

  lemma RunAdmits(cfg: Config, w: Window, s: nat, rest: seq<nat>, acc: seq<nat>)
    requires Shaped(cfg, w) && cfg.Sound() && Admits(cfg, w, s)
    ensures Run(cfg, w, [s] + rest, acc) == Run(cfg, Advance(cfg, w, s), rest, acc + [s])
  {
    assert ([s] + rest)[1..] == rest;
  }

  /** A wide partial top word loses its high bits at every shift, and an accepted 0 comes back. */
  lemma WideTopWordRepeats(cfg: Config)
    requires cfg.Sound() && cfg.window % 64 > 32 && cfg.window <= cfg.maxSeq
    ensures var hop := 64 * Chunks(cfg.window) - cfg.window % 64;
            Run(cfg, Initial(cfg), [0, hop, 0], []).1 == [0, hop, 0]
  {
    var hop := 64 * Chunks(cfg.window) - cfg.window % 64;
    assert 0 < hop < cfg.window;
    var w1 := Advance(cfg, Initial(cfg), 0);
    var w2 := Advance(cfg, w1, hop);
    MaskClears(cfg.window, w1.mask, hop);
    SmallMod(0, cfg.maxSeq);
    assert !w2.mask[hop];
    RunOfThree(cfg, 0, hop, 0);
  }

  lemma MaskClears(n: nat, s: seq<bool>, j: nat)
    requires |s| == 64 * Chunks(n) && n % 64 > 32 && j == |s| - n % 64
    ensures !ShiftedBit(s, n, j, j)
  {
  }

  /** With a window beyond maxSeq the modulus files sequence 0 under the newest one. */
  lemma WindowBeyondMaxRepeats(cfg: Config)
    requires cfg.Sound() && cfg.window > cfg.maxSeq
    ensures Run(cfg, Initial(cfg), [cfg.maxSeq, 0, 0], []).1 == [cfg.maxSeq, 0, 0]
  {
    var m := cfg.maxSeq;
    var w1 := Advance(cfg, Initial(cfg), m);
    SmallMod(0, m);
    assert !w1.mask[m] && w1.mask[0];
    assert m % m == 0;
    assert w1.mask[0 := true] == w1.mask;
    RunOfThree(cfg, m, 0, 0);
  }

  /** No run accepts a sequence number twice, exactly for the faithful window shapes. */
  lemma NoReplayIffFaithful(cfg: Config)
    requires cfg.Sound()
    ensures NeverRepeats(cfg) <==> Faithful(cfg)
  {
    if Faithful(cfg) {
      forall input
        ensures Distinct(Run(cfg, Initial(cfg), input, []).1)
      {
        RunRecords(cfg, Initial(cfg), input, []);
      }
    } else if cfg.window > cfg.maxSeq {
      WindowBeyondMaxRepeats(cfg);
      assert [cfg.maxSeq, 0, 0][1] == [cfg.maxSeq, 0, 0][2];
    } else {
      WideTopWordRepeats(cfg);
      var hop := 64 * Chunks(cfg.window) - cfg.window % 64;
      assert [0, hop, 0][0] == [0, hop, 0][2];
    }
  }

  /** After any run, Check says yes exactly for an unseen number above latest or inside the window. */
  lemma CheckAfterAnyRun(cfg: Config, input: seq<nat>, s: nat)
    requires cfg.Sound() && Faithful(cfg)
    ensures var (w, acc) := Run(cfg, Initial(cfg), input, []);
            Admits(cfg, w, s) <==> s <= cfg.maxSeq && s !in acc && (s > w.latest || w.latest - s < cfg.window)
  {
    RunRecords(cfg, Initial(cfg), input, []);
    var (w, acc) := Run(cfg, Initial(cfg), input, []);
    CheckIsExact(cfg, w, acc, s);
  }
}
