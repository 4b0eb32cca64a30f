/** `cor::Backtrace<Frames>`: the return addresses captured when an error
    is raised, with their symbol names loaded lazily on first use. The C
    library calls (`backtrace`, `backtrace_symbols`, `dladdr`,
    `__cxa_demangle`) are not modelled: their results are parameters. */
module Backtraces {
  import Text
  import opened Optional

  /** A return address. */
  type Address = nat

  /** One line of the printed trace: the frame number, ": ", the name and
      the end of the line. */
  function Line(i: nat, name: string): string {
    Text.ShowNat(i) + ": " + name + "\n"
  }

  /** A line that starts with frame number `i` and ": " and ends the line. */
  predicate Numbered(line: string, i: nat) {
    Text.ShowNat(i) + ": " <= line && |line| > 0 && line[|line| - 1] == '\n'
  }

  lemma LineIsNumbered(i: nat, name: string)
    ensures Numbered(Line(i, name), i)
  {
    var prefix := Text.ShowNat(i) + ": ";
    assert Line(i, name) == prefix + (name + "\n");
  }

  /** How many decimal digits a line starts with. */
  function LeadingDigits(s: string): (n: nat)
    ensures n <= |s|
  {
    if s == [] || !('0' <= s[0] <= '9') then 0 else 1 + LeadingDigits(s[1..])
  }

  lemma {:induction false} LeadingDigitsOf(digits: string, rest: string)
    requires Text.IsDigits(digits) && rest != [] && !('0' <= rest[0] <= '9')
    ensures LeadingDigits(digits + rest) == |digits|
  {
    if digits == [] {
      assert digits + rest == rest;
    } else {
      LeadingDigitsOf(digits[1..], rest);
      assert (digits + rest)[1..] == digits[1..] + rest;
    }
  }

  /** The number at the head of a line identifies the frame: a line is
      numbered by at most one frame, since its digits end at the ':'. */
  lemma NumberedUnique(line: string, i: nat, j: nat)
    requires Numbered(line, i) && Numbered(line, j)
    ensures i == j
  {
    var si, sj := Text.ShowNat(i), Text.ShowNat(j);
    LeadingDigitsOf(si, line[|si|..]);
    LeadingDigitsOf(sj, line[|sj|..]);
    assert line == si + line[|si|..] == sj + line[|sj|..];
    assert si == line[..|si|] == sj;
    Text.ShowNatInjective(i, j);
  }

  /** Distinct lines of a printed trace: no two lines carry the same text. */
  lemma NumberedLinesDistinct(lines: seq<string>, j: nat, k: nat)
    requires AllNumbered(lines) && j < k < |lines|
    ensures lines[j] != lines[k]
  {
    if lines[j] == lines[k] {
      NumberedUnique(lines[j], j, k);
    }
  }

  /** Every line starts with its own frame number. */
  ghost predicate AllNumbered(lines: seq<string>) {
    forall j :: 0 <= j < |lines| ==> Numbered(lines[j], j)
  }

  lemma NumberedAppend(lines: seq<string>, name: string)
    requires AllNumbered(lines)
    ensures AllNumbered(lines + [Line(|lines|, name)])
  {
    LineIsNumbered(|lines|, name);
    var longer := lines + [Line(|lines|, name)];
    assert forall j :: 0 <= j < |lines| ==> longer[j] == lines[j];
  }

  /** The name printed for frame `index` when the symbol names are
      `names`: the demangled symbol when there is one, else the loaded
      name, else "???". */
  ghost function FrameName(frames: seq<Address>, index: nat, symbolize: Address -> Option<string>,
                           names: seq<string>): string
    requires index < |frames|
  {
    if symbolize(frames[index]).Some? then symbolize(frames[index]).value
    else if index < |names| then names[index]
    else "???"
  }

  /** Line `j` names frame `j`, for every line. */
  ghost predicate Traced(lines: seq<string>, frames: seq<Address>, symbolize: Address -> Option<string>,
                         names: seq<string>) {
    && |lines| <= |frames|
    && forall j :: 0 <= j < |lines| ==> lines[j] == Line(j, FrameName(frames, j, symbolize, names))
  }

  lemma TracedAppend(lines: seq<string>, frames: seq<Address>, symbolize: Address -> Option<string>,
                     names: seq<string>)
    requires Traced(lines, frames, symbolize, names) && |lines| < |frames|
    ensures Traced(lines + [Line(|lines|, FrameName(frames, |lines|, symbolize, names))], frames, symbolize, names)
  {
    var longer := lines + [Line(|lines|, FrameName(frames, |lines|, symbolize, names))];
    assert forall j :: 0 <= j < |lines| ==> longer[j] == lines[j];
  }

  class Backtrace {
    /** The frame buffer (`std::array<void*, Frames>`). */
    const frames: seq<Address>
    /** `count_`: how many frames were captured. */
    var count: nat
    /** `symbols`: `None` while the symbol names have not been loaded. */
    var symbols: Option<seq<string>>

    ghost predicate Valid()
      reads this
    {
      && 1 <= |frames|
      && count <= |frames|
      && (symbols.Some? ==> |symbols.value| == count)
    }

    /** The constructor: `backtrace` filled the first `depth` entries of a
        buffer of `|frames|` entries; no symbols are loaded yet. */
    constructor (frames: seq<Address>, depth: nat)
      requires 1 <= |frames| && depth <= |frames|
      ensures Valid()
      ensures this.frames == frames && count == depth && symbols == None
    {
      this.frames := frames;
      count := depth;
      symbols := None;
    }

    /** `backtrace_symbols(frames, count_)` may be called now and, if it
        succeeds, gives one name per captured frame. */
    predicate CanLoad(lookup: Option<seq<string>>)
      reads this
    {
      symbols.None? && lookup.Some? ==> |lookup.value| == count
    }

    /** The effect of `update_symbols` with `lookup` as the result of
        `backtrace_symbols`: nothing once symbols are loaded; otherwise the
        names it returned, or, when it failed, the single name "?" for a
        single frame. */
    twostate predicate SymbolsUpdated(lookup: Option<seq<string>>)
      reads this
    {
      if old(symbols).Some? then symbols == old(symbols) && count == old(count)
      else if lookup.Some? then symbols == lookup && count == old(count)
      else symbols == Some(["?"]) && count == 1
    }

    /** `update_symbols`: loads the symbol names once. */
    method UpdateSymbols(lookup: Option<seq<string>>)
      requires Valid() && CanLoad(lookup)
      modifies this
      ensures Valid() && symbols.Some?
      ensures SymbolsUpdated(lookup)
    {
      if symbols.Some? {
        return;
      }
      symbols := lookup;
      if symbols.None? {
        symbols := Some(["?"]);
        count := 1;
      }
    }

    /** `size()`: the number of frames captured (`count_`, which drops to
        one when loading the symbols fails); never more than the buffer
        holds. */
    function Size(): (n: nat)
      reads this
      requires Valid()
      ensures n == count
      ensures n <= |frames|
    {
      count
    }

    /** `at(index)`: the symbol name of a frame, "???" past the last one. */
    method At(index: nat, lookup: Option<seq<string>>) returns (name: string)
      requires Valid() && CanLoad(lookup)
      modifies this
      ensures Valid() && symbols.Some? && SymbolsUpdated(lookup)
      ensures index >= count ==> name == "???"
      ensures index < count ==> name == symbols.value[index]
    {
      UpdateSymbols(lookup);
      name := if index < count then symbols.value[index] else "???";
    }

    /** `begin()` to `end()`: every symbol name, after loading them. */
    method Symbols(lookup: Option<seq<string>>) returns (names: seq<string>)
      requires Valid() && CanLoad(lookup)
      modifies this
      ensures Valid() && SymbolsUpdated(lookup)
      ensures |names| == count && symbols == Some(names)
    {
      UpdateSymbols(lookup);
      names := symbols.value;
    }

    /** `dladdr(index, info)`: whether the C library can resolve the frame's
        address; frames past the last captured one are never looked up. */
    function Dladdr(index: nat, resolves: Address -> bool): (found: bool)
      reads this
      requires Valid()
      ensures found <==> index < count && resolves(frames[index])
    {
      index < count && resolves(frames[index])
    }

    /** `name(index)`: the demangled name of the symbol at the frame's
        address when there is one, otherwise `at(index)`. `symbolize` gives
        the demangled name when `dladdr` finds a symbol and demangling
        succeeds. */
    method Name(index: nat, symbolize: Address -> Option<string>, lookup: Option<seq<string>>)
      returns (name: string)
      requires Valid() && CanLoad(lookup)
      modifies this
      ensures Valid() && CanLoad(lookup)
      ensures index < old(count) && symbolize(frames[index]).Some? ==>
                name == symbolize(frames[index]).value && symbols == old(symbols) && count == old(count)
      ensures !(index < old(count) && symbolize(frames[index]).Some?) ==>
                SymbolsUpdated(lookup) && name == (if index < count then symbols.value[index] else "???")
    {
      if Dladdr(index, (a: Address) => symbolize(a).Some?) {
        name := symbolize(frames[index]).value;
      } else {
        name := At(index, lookup);
      }
    }

    /** The stream output operator: one line per frame, the frame count
        being read again before every line. When the symbol names are, or
        can be, loaded, there is a line for every captured frame; when
        loading them fails the count drops to one and the trace stops early. */
    method Trace(symbolize: Address -> Option<string>, lookup: Option<seq<string>>)
      returns (lines: seq<string>)
      requires Valid() && CanLoad(lookup)
      modifies this
      ensures Valid()
      ensures (symbols == old(symbols) && count == old(count)) || SymbolsUpdated(lookup)
      ensures |lines| <= old(count)
      ensures AllNumbered(lines)
      ensures old(symbols).Some? || lookup.Some? ==>
                && |lines| == old(count)
                && Traced(lines, frames, symbolize,
                          if old(symbols).Some? then old(symbols).value else lookup.value)
    {
      ghost var count0 := count;
      ghost var known := symbols.Some? || lookup.Some?;
      ghost var names := if symbols.Some? then symbols.value else if lookup.Some? then lookup.value else [];
      lines := [];
      var i := 0;
      while i < Size()
        invariant Valid() && CanLoad(lookup)
        invariant (symbols == old(symbols) && count == old(count)) || SymbolsUpdated(lookup)
        invariant i == |lines| <= count0 && count <= count0
        invariant symbols.None? ==> count == count0
        invariant known ==> count == count0 && |names| == count0
        invariant known && symbols.None? ==> lookup == Some(names)
        invariant known && symbols.Some? ==> symbols.value == names
        invariant AllNumbered(lines)
        invariant known ==> Traced(lines, frames, symbolize, names)
      {
        var name := Name(i, symbolize, lookup);
        NumberedAppend(lines, name);
        if known {
          assert name == FrameName(frames, i, symbolize, names);
          TracedAppend(lines, frames, symbolize, names);
        }
        lines := lines + [Line(i, name)];
        i := i + 1;
      }
    }
  }

  /** Loading the symbol names a second time changes nothing. */
  method UpdateTwice(b: Backtrace, first: Option<seq<string>>, second: Option<seq<string>>)
    requires b.Valid() && b.CanLoad(first)
    modifies b
    ensures b.Valid() && b.symbols.Some?
    ensures b.symbols == (if old(b.symbols).Some? then old(b.symbols) else if first.Some? then first else Some(["?"]))
  {
    b.UpdateSymbols(first);
    ghost var loaded, n := b.symbols, b.count;
    b.UpdateSymbols(second);
    assert b.symbols == loaded && b.count == n;
  }
}
