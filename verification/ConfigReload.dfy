/**
Loading the configuration file and loading it again when its checksum has changed,
`src/parser/dmmr_parser.c`.
*/
module ConfigReload {
  import opened Bytes
  import opened MaximalMunch
  import opened BufferedScanner
  import opened ConfigText
  import opened Console
  import opened Crc32

  /** A reload takes a file whose checksum is new and not 0. */
  predicate TakesEffect(last: Word, crc: Word) { crc != Zeros(32) && crc != last }

  predicate Readable(f: OpenedFile) {
    f.File? ==> forall k :: 0 <= k < |f.parts| ==> 0 < |f.parts[k]| <= 1024
  }

  /** Whatever is in a file, reads of at most 1024 bytes deliver it. */
  lemma {:induction false} AnythingIsReadable(data: seq<Byte>) returns (parts: seq<seq<Byte>>)
    ensures Readable(File(parts)) && Flatten(parts) == data
    decreases |data|
  {
    if data == [] {
      parts := [];
    } else {
      var n := if |data| < 1024 then |data| else 1024;
      var more := AnythingIsReadable(data[n..]);
      parts := [data[..n]] + more;
      assert parts[1..] == more && data == data[..n] + data[n..];
    }
  }

  // -------------------------------------------------------------- which files are noticed

  lemma BitsOfPart(data: seq<Byte>, i: nat)
    requires i <= |data|
    ensures MessageBits(data)[..8 * i] == MessageBits(data[..i])
    ensures MessageBits(data)[8 * i..] == MessageBits(data[i..])
  {
    hide MessageBits;
    var x, y := MessageBits(data[..i]), MessageBits(data[i..]);
    MessageBitsConcat(data[..i], data[i..]);
    assert data[..i] + data[i..] == data;
    assert (x + y)[..|x|] == x && (x + y)[|x|..] == y;
  }

  /** An edit in place of up to four neighbouring bytes changes the checksum. */
  lemma SmallEditChangesCrc(a: seq<Byte>, b: seq<Byte>, i: nat, n: nat)
    requires |a| == |b| && a != b && n <= 4 && i + n <= |a|
    requires a[..i] == b[..i] && a[i + n..] == b[i + n..]
    ensures Crc(a) != Crc(b)
  {
    hide MessageBits, Crc;
    BitsOfPart(a, i);
    BitsOfPart(b, i);
    BitsOfPart(a, i + n);
    BitsOfPart(b, i + n);
    BurstDetected(a, b, 8 * i, 8 * n);
  }

  /** So a reload after one takes effect, unless the new checksum happens to be 0. */
  lemma SmallEditIsReloadedIff(a: seq<Byte>, b: seq<Byte>, i: nat, n: nat)
    requires |a| == |b| && a != b && n <= 4 && i + n <= |a|
    requires a[..i] == b[..i] && a[i + n..] == b[i + n..]
    ensures TakesEffect(Crc(a), Crc(b)) <==> Crc(b) != Zeros(32)
  {
    SmallEditChangesCrc(a, b, i, n);
  }

  /**
  Whatever a file is made of, the endings of four bytes with which it goes unnoticed are
  exactly two: the one with the last file's checksum, and the one with checksum 0.
  */
  lemma UnnoticedEndingsIff(last: Word, data: seq<Byte>, z: seq<Byte>)
    requires |z| == 4
    ensures TakesEffect(last, Crc(data + z)) <==> z != Suffix(data, last) && z != Suffix(data, Zeros(32))
  {
    hide Crc, Suffix;
    SuffixIsUnique(data, last, z);
    SuffixIsUnique(data, Zeros(32), z);
  }

  /** In particular there are files with checksum 0, beginning with any data; they are never loaded again. */
  lemma FileWithCrcZero(data: seq<Byte>, last: Word)
    ensures var file := data + Suffix(data, Zeros(32));
            Crc(file) == Zeros(32) && !TakesEffect(last, Crc(file))
  {
    hide Crc, Suffix;
    SuffixIsUnique(data, Zeros(32), Suffix(data, Zeros(32)));
  }

  /** Before the first load has generated the table, any two files of four bytes or more have one checksum. */
  lemma UngeneratedTableNoticesOnce(t: seq<Word>, last: Word, data: seq<Byte>)
    requires |t| == 256 && Ungenerated(t) && |data| >= 4
    ensures TakesEffect(last, TableCrc(t, data)) <==> last != Ones(32)
  {
    ZeroTableCrc(t, data);
    assert Ones(32)[0] && !Zeros(32)[0];
  }

  // -------------------------------------------------------------- what a printed file sets

  /** A file that is a print of statements carries them out; one of a configuration gives it back if it is in range. */
  lemma PrintedTakesEffect(cfg: Config, data: seq<Byte>)
    requires HasUris(cfg)
    ensures forall ps: seq<LaidOut> :: data == Print(ps) ==>
              HandleAll(State(cfg, 0), Visible(Lex(data))) == State(AssignAll(cfg, ps), 0)
    ensures forall c: Config :: HasUris(c) && data == Print(Lines(c)) ==>
              (Same(HandleAll(State(cfg, 0), Visible(Lex(data))).cfg, c) <==> InRange(c))
  {
    hide HandleAll, Visible, Lex, Print, InRange, Same, Lines;
    forall ps: seq<LaidOut> | data == Print(ps)
      ensures HandleAll(State(cfg, 0), Visible(Lex(data))) == State(AssignAll(cfg, ps), 0)
    {
      StatementsTakeEffect(State(cfg, 0), ps);
    }
    forall c: Config | HasUris(c) && data == Print(Lines(c))
      ensures Same(HandleAll(State(cfg, 0), Visible(Lex(data))).cfg, c) <==> InRange(c)
    {
      ConfigRoundTripIff(State(cfg, 0), c);
    }
  }

  // -------------------------------------------------------------- the parser

  class Parser {
    const settings: Settings
    const scanner: Scanner
    const checksum: Checksum
    var lastCrc: Word

    ghost predicate Valid()
      reads this, settings, scanner, scanner.chBuf, checksum, checksum.table
    {
      && HasUris(settings.state.cfg) && scanner.AtEnd() && checksum.Valid()
      && {checksum.table as object} !! {scanner.chBuf as object}
    }

    constructor (cfg: Config, size: nat)
      requires HasUris(cfg) && size > 0
      ensures Valid() && settings.state == State(cfg, 0) && lastCrc == Zeros(32) && Ungenerated(checksum.table[..])
      ensures fresh(settings) && fresh(scanner) && fresh(scanner.chBuf) && fresh(checksum) && fresh(checksum.table)
    {
      settings := new Settings(cfg);
      scanner := new Scanner([], size);
      checksum := new Checksum();
      lastCrc := Zeros(32);
    }

    /** `console_setup` of a file that opens, and `console_run`. */
    method RunConsole(data: seq<Byte>)
      requires Valid()
      modifies settings, scanner, scanner.chBuf
      ensures Valid() && (scanner.chBuf == old(scanner.chBuf) || fresh(scanner.chBuf))
      ensures settings.state == HandleAll(State(old(settings.state.cfg), 0), Visible(Lex(data)))
      ensures forall ps: seq<LaidOut> :: data == Print(ps) ==>
                settings.state == State(AssignAll(old(settings.state.cfg), ps), 0)
      ensures forall c: Config :: HasUris(c) && data == Print(Lines(c)) ==>
                (Same(settings.state.cfg, c) <==> InRange(c))
    {
      hide HandleAll, Visible, Lex, Print, InRange, Same, Lines, AssignAll;
      PrintedTakesEffect(settings.state.cfg, data);
      settings.Clear();
      scanner.Reopen(data);
      settings.Run(scanner);
    }

    /** `parser_load_config`; the setting seen last is forgotten even if the file does not open. */
    method Load(f: OpenedFile) returns (ok: bool)
      requires Valid() && Readable(f)
      modifies this, settings, scanner, scanner.chBuf, checksum.table
      ensures Valid() && (scanner.chBuf == old(scanner.chBuf) || fresh(scanner.chBuf))
      ensures ok == f.File?
      ensures ok ==> checksum.Ready() && lastCrc == Crc(Flatten(f.parts))
                     && settings.state == HandleAll(State(old(settings.state.cfg), 0), Visible(Lex(Flatten(f.parts))))
      ensures ok ==> forall ps: seq<LaidOut> :: Flatten(f.parts) == Print(ps) ==>
                       settings.state == State(AssignAll(old(settings.state.cfg), ps), 0)
      ensures ok ==> forall c: Config :: HasUris(c) && Flatten(f.parts) == Print(Lines(c)) ==>
                       (Same(settings.state.cfg, c) <==> InRange(c))
      ensures !ok ==> settings.state == State(old(settings.state.cfg), 0) && lastCrc == old(lastCrc)
                      && checksum.table[..] == old(checksum.table[..])
    {
      hide HandleAll, Visible, Lex, Print, InRange, Same, Lines, AssignAll, Crc;
      if f.NoFile? {
        settings.Clear();
        return false;
      }
      RunConsole(Flatten(f.parts));
      checksum.GenerateTable();
      lastCrc := checksum.FileChecksum(f);
      ok := true;
    }

    /** `parser_reload_config`, before or after a load has generated the table. */
    method Reload(f: OpenedFile)
      requires Valid() && Readable(f)
      modifies this, settings, scanner, scanner.chBuf
      ensures Valid() && (scanner.chBuf == old(scanner.chBuf) || fresh(scanner.chBuf))
      ensures checksum.table[..] == old(checksum.table[..])
      ensures var crc := if f.NoFile? then Zeros(32) else TableCrc(checksum.table[..], Flatten(f.parts));
              && (f.File? && checksum.Ready() ==> crc == Crc(Flatten(f.parts)))
              && if TakesEffect(old(lastCrc), crc)
                 then
                   && f.File? && lastCrc == crc
                   && settings.state == HandleAll(State(old(settings.state.cfg), 0), Visible(Lex(Flatten(f.parts))))
                   && (forall ps: seq<LaidOut> :: Flatten(f.parts) == Print(ps) ==>
                         settings.state == State(AssignAll(old(settings.state.cfg), ps), 0))
                   && (forall c: Config :: HasUris(c) && Flatten(f.parts) == Print(Lines(c)) ==>
                         (Same(settings.state.cfg, c) <==> InRange(c)))
                 else settings.state == old(settings.state) && lastCrc == old(lastCrc)
    {
      hide Crc, TableCrc, Generated, HandleAll, Visible, Lex, Print, InRange, Same, Lines, AssignAll;
      var crc := checksum.FileChecksum(f);
      if crc != Zeros(32) && crc != lastCrc {
        lastCrc := crc;
        RunConsole(Flatten(f.parts));
      }
    }
  }
}
