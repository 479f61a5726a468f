/** What a reader finds in the table of the processors, byte by byte: the header of section 5.2.6
    of the ACPI Specification and the processor objects of section 20.2.5.2. */
module AcpiReader {
  import opened TableBytes
  import opened AcpiSsdt

  /** The digits of a name: U where there is no first digit. */
  function Digit(d: nat): Byte
    requires d < 16
  {
    "0123456789ABCDEF"[d] as int
  }

  lemma HexDigitIs(d: nat)
    requires d < 16
    ensures HexDigit(d) == Digit(d)
  {
  }

  /** The object of processor i: its length, its name, its number, the register block at 0xb010 and
      the six bytes of it. */
  lemma ProcessorReads(i: nat)
    requires i < 256
    ensures Processor(i)
         == [0x5b, 0x83, 0x0b, 0x43, 0x50, if i < 16 then 0x55 else Digit(i / 16), Digit(i % 16), i, 0x10, 0xb0, 0, 0, 6]
  {
    HexDigitIs(i / 16);
    HexDigitIs(i % 16);
    hide HexDigit, Digit;
  }

  lemma {:induction false} ProcessorsRead(n: nat, i: nat)
    requires i < n <= 255
    ensures Processors(n)[13 * i..13 * i + 13] == Processor(i)
  {
    hide Processor;
    if i < n - 1 {
      ProcessorsRead(n - 1, i);
      assert Processors(n)[13 * i..13 * i + 13] == Processors(n - 1)[13 * i..13 * i + 13];
    } else {
      assert Processors(n)[13 * i..13 * i + 13] == Processor(i);
    }
  }

  lemma FrontReads(len: int)
    ensures Text("SSDT") == [0x53, 0x53, 0x44, 0x54]
    ensures var f := HeaderFront(Text("SSDT"), len, 1);
      |f| == 9 && f[..4] == [0x53, 0x53, 0x44, 0x54] && f[8] == 1
  {
    assert Text("SSDT") == [0x53, 0x53, 0x44, 0x54];
    hide Low;
  }

  lemma Texts()
    ensures Text("BOCHS ") == [0x42, 0x4f, 0x43, 0x48, 0x53, 0x20]
    ensures Text("BXPC") == [0x42, 0x58, 0x50, 0x43] && Text("_PR_") == [0x5f, 0x50, 0x52, 0x5f]
    ensures Le32(1) == [1, 0, 0, 0]
  {
  }

  lemma BackReads(sig: seq<Byte>)
    requires sig == [0x53, 0x53, 0x44, 0x54]
    ensures HeaderBack(sig)
         == [0x42, 0x4f, 0x43, 0x48, 0x53, 0x20, 0x42, 0x58, 0x50, 0x43, 0x53, 0x53, 0x44, 0x54, 1, 0, 0, 0,
             0x42, 0x58, 0x50, 0x43, 1, 0, 0, 0]
  {
    Texts();
    hide Text, Le32;
  }

  lemma HeaderKept(front: seq<Byte>, back: seq<Byte>, body: seq<Byte>, v: Byte)
    requires |front| == 9 && |back| == 26
    ensures var t := (front + [0] + back + body)[9 := v];
      |t| == 36 + |body| && t[..4] == front[..4] && t[8] == front[8] && t[10..36] == back
  {
  }

  lemma WithHeaderIs(sig: seq<Byte>, body: seq<Byte>)
    requires |sig| == 4
    ensures var front, back := HeaderFront(sig, 36 + |body|, 1), HeaderBack(sig);
      && |front| == 9 && |back| == 26
      && WithHeader(sig, 1, 0, body) == (front + [0] + back + body)[9 := Negated(Sum(front + [0] + back + body))]
  {
    HeaderSizes(sig, 36 + |body|, 1);
    hide HeaderFront, HeaderBack, Negated, Sum;
  }

  lemma ObjectReads(t: seq<Byte>, objects: nat, n: nat, i: nat)
    requires i < n <= 255 && objects + 13 * n == |t| && t[objects..] == Processors(n)
    ensures t[objects + 13 * i..objects + 13 * i + 13]
         == [0x5b, 0x83, 0x0b, 0x43, 0x50, if i < 16 then 0x55 else Digit(i / 16), Digit(i % 16), i, 0x10, 0xb0, 0, 0, 6]
  {
    hide *;
    ProcessorsRead(n, i);
    ProcessorReads(i);
    SubSlice(t, objects, |t|, 13 * i, 13 * i + 13);
    assert t[objects..|t|] == t[objects..];
  }

  /** The table for any number of processors: its header's signature, revision, maker and tables,
      and its i-th object. */
  lemma SsdtReadsAs(cpus: nat, i: nat)
    ensures var t := Ssdt(cpus);
      && |t| >= 42 && t[..4] == [0x53, 0x53, 0x44, 0x54] && t[8] == 1
      && t[10..36] == [0x42, 0x4f, 0x43, 0x48, 0x53, 0x20, 0x42, 0x58, 0x50, 0x43, 0x53, 0x53, 0x44, 0x54, 1, 0, 0, 0,
                       0x42, 0x58, 0x50, 0x43, 1, 0, 0, 0]
      && var n := if cpus > 255 then 255 else cpus;
      && var objects := |t| - 13 * n;
      && 41 < objects && t[objects - 4..objects] == [0x5f, 0x50, 0x52, 0x5f]
      && (i < n ==>
           t[objects + 13 * i..objects + 13 * i + 13]
             == [0x5b, 0x83, 0x0b, 0x43, 0x50, if i < 16 then 0x55 else Digit(i / 16), Digit(i % 16), i, 0x10, 0xb0, 0, 0, 6])
  {
    hide *;
    var n := Declared(cpus);
    SsdtIs(cpus);
    SsdtParts(n);
    var t := Ssdt(cpus);
    var front, back := HeaderFront(Text("SSDT"), 36 + |Scope(n)|, 1), HeaderBack(Text("SSDT"));
    FrontReads(36 + |Scope(n)|);
    BackReads(Text("SSDT"));
    WithHeaderIs(Text("SSDT"), Scope(n));
    HeaderKept(front, back, Scope(n), Negated(Sum(front + [0] + back + Scope(n))));
    Texts();
    var objects := 41 + |PkgLength(ScopeLength(n))|;
    assert objects == |t| - 13 * n;
    if i < n {
      ObjectReads(t, objects, n, i);
    }
  }
}
