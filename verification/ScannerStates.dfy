/**
The transitions of the automaton behind the tables of `src/parser/scanner.c`, state by state.
*/
module ScannerStates {
  import opened Bytes
  import opened ScannerTables

  predicate IsDigit(b: int) { '0' as int <= b <= '9' as int }

  predicate IsLetter(b: int) { 'a' as int <= b <= 'z' as int || 'A' as int <= b <= 'Z' as int }

  predicate IsIdentByte(b: int) { IsLetter(b) || IsDigit(b) || b == '_' as int }

  predicate IsBlank(b: int) { b == ' ' as int || b == '\t' as int }

  const NEWLINE := '\n' as int
  const QUOTE := '"' as int
  const BACKSLASH := '\\' as int

  /** The class a byte of text has: the scanner treats a NUL that is not an end mark as class 1. */
  function ClassOf(b: Byte): (c: Class)
    ensures c != 0
  {
    EcInRange(b);
    if b == 0 then 1 else Ec(b)
  }

  lemma EcInRange(b: Byte)
    ensures 0 <= Ec(b) < 34 && (Ec(b) == 0 <==> b == 0)
  {
  }

  // -------------------------------------------------------------- keyword states

  /** A state on the path of some keyword. */
  predicate InTrie(s: int) { 13 <= s <= 17 || 24 <= s <= 164 }

  /** The one table entry that leads to a keyword state; 0 for other states. */
  function Slot(t: int): int {
    if t < 88 then
      if t < 48 then
        if t < 24 then
          if t < 16 then
            if t < 8 then
              (match t case 0 => 0 case 1 => 0 case 2 => 0 case 3 => 0
               case 4 => 0 case 5 => 0 case 6 => 0 case _ => 0)
            else
              (match t case 8 => 0 case 9 => 0 case 10 => 0 case 11 => 0
               case 12 => 0 case 13 => 11 case 14 => 21 case _ => 25)
          else
            (match t case 16 => 26 case 17 => 27 case 18 => 0 case 19 => 0
             case 20 => 0 case 21 => 0 case 22 => 0 case _ => 0)
        else
          if t < 40 then
            if t < 32 then
              (match t case 24 => 184 case 25 => 183 case 26 => 35 case 27 => 38
               case 28 => 37 case 29 => 39 case 30 => 46 case _ => 182)
            else
              (match t case 32 => 178 case 33 => 177 case 34 => 176 case 35 => 175
               case 36 => 174 case 37 => 173 case 38 => 172 case _ => 171)
          else
            (match t case 40 => 170 case 41 => 169 case 42 => 168 case 43 => 167
             case 44 => 166 case 45 => 165 case 46 => 164 case _ => 163)
      else
        if t < 72 then
          if t < 64 then
            if t < 56 then
              (match t case 48 => 162 case 49 => 161 case 50 => 160 case 51 => 159
               case 52 => 158 case 53 => 157 case 54 => 156 case _ => 155)
            else
              (match t case 56 => 154 case 57 => 153 case 58 => 152 case 59 => 151
               case 60 => 150 case 61 => 149 case 62 => 148 case _ => 147)
          else
            (match t case 64 => 146 case 65 => 145 case 66 => 144 case 67 => 143
             case 68 => 142 case 69 => 141 case 70 => 140 case _ => 40)
        else
          if t < 80 then
            (match t case 72 => 43 case 73 => 139 case 74 => 138 case 75 => 137
             case 76 => 136 case 77 => 135 case 78 => 134 case _ => 133)
          else
            (match t case 80 => 132 case 81 => 131 case 82 => 130 case 83 => 129
             case 84 => 128 case 85 => 127 case 86 => 126 case _ => 125)
    else
      if t < 128 then
        if t < 112 then
          if t < 104 then
            if t < 96 then
              (match t case 88 => 124 case 89 => 123 case 90 => 122 case 91 => 121
               case 92 => 120 case 93 => 119 case 94 => 118 case _ => 117)
            else
              (match t case 96 => 116 case 97 => 115 case 98 => 114 case 99 => 113
               case 100 => 112 case 101 => 41 case 102 => 57 case _ => 111)
          else
            (match t case 104 => 110 case 105 => 109 case 106 => 108 case 107 => 107
             case 108 => 106 case 109 => 105 case 110 => 104 case _ => 103)
        else
          if t < 120 then
            (match t case 112 => 102 case 113 => 101 case 114 => 100 case 115 => 99
             case 116 => 98 case 117 => 97 case 118 => 96 case _ => 95)
          else
            (match t case 120 => 94 case 121 => 93 case 122 => 92 case 123 => 91
             case 124 => 90 case 125 => 89 case 126 => 88 case _ => 87)
      else
        if t < 152 then
          if t < 144 then
            if t < 136 then
              (match t case 128 => 86 case 129 => 85 case 130 => 84 case 131 => 83
               case 132 => 82 case 133 => 81 case 134 => 80 case _ => 79)
            else
              (match t case 136 => 78 case 137 => 77 case 138 => 76 case 139 => 75
               case 140 => 74 case 141 => 73 case 142 => 72 case _ => 71)
          else
            (match t case 144 => 70 case 145 => 69 case 146 => 68 case 147 => 67
             case 148 => 63 case 149 => 61 case 150 => 60 case _ => 59)
        else
          if t < 160 then
            (match t case 152 => 58 case 153 => 56 case 154 => 55 case 155 => 54
             case 156 => 53 case 157 => 52 case 158 => 51 case _ => 50)
          else
            (match t case 160 => 49 case 161 => 48 case 162 => 47 case 163 => 45 case _ => 44)
  }

  /** The state before the last step of a keyword state's path; 0 for other states. */
  function Parent(t: int): int {
    if t < 88 then
      if t < 48 then
        if t < 24 then
          if t < 16 then
            if t < 8 then
              (match t case 0 => 0 case 1 => 0 case 2 => 0 case 3 => 0
               case 4 => 0 case 5 => 0 case 6 => 0 case _ => 0)
            else
              (match t case 8 => 0 case 9 => 0 case 10 => 0 case 11 => 0
               case 12 => 0 case 13 => 1 case 14 => 1 case _ => 1)
          else
            (match t case 16 => 1 case 17 => 1 case 18 => 0 case 19 => 0
             case 20 => 0 case 21 => 0 case 22 => 0 case _ => 0)
        else
          if t < 40 then
            if t < 32 then
              (match t case 24 => 13 case 25 => 14 case 26 => 15 case 27 => 15
               case 28 => 16 case 29 => 16 case 30 => 16 case _ => 17)
            else
              (match t case 32 => 24 case 33 => 25 case 34 => 26 case 35 => 27
               case 36 => 28 case 37 => 29 case 38 => 30 case _ => 31)
          else
            (match t case 40 => 32 case 41 => 33 case 42 => 34 case 43 => 35
             case 44 => 36 case 45 => 37 case 46 => 38 case _ => 39)
      else
        if t < 72 then
          if t < 64 then
            if t < 56 then
              (match t case 48 => 40 case 49 => 41 case 50 => 42 case 51 => 43
               case 52 => 44 case 53 => 45 case 54 => 46 case _ => 47)
            else
              (match t case 56 => 48 case 57 => 49 case 58 => 50 case 59 => 51
               case 60 => 52 case 61 => 53 case 62 => 54 case _ => 55)
          else
            (match t case 64 => 56 case 65 => 57 case 66 => 58 case 67 => 59
             case 68 => 60 case 69 => 61 case 70 => 62 case _ => 63)
        else
          if t < 80 then
            (match t case 72 => 63 case 73 => 64 case 74 => 65 case 75 => 66
             case 76 => 67 case 77 => 68 case 78 => 69 case _ => 70)
          else
            (match t case 80 => 71 case 81 => 72 case 82 => 73 case 83 => 74
             case 84 => 75 case 85 => 76 case 86 => 77 case _ => 78)
    else
      if t < 128 then
        if t < 112 then
          if t < 104 then
            if t < 96 then
              (match t case 88 => 79 case 89 => 80 case 90 => 81 case 91 => 82
               case 92 => 84 case 93 => 85 case 94 => 86 case _ => 87)
            else
              (match t case 96 => 88 case 97 => 89 case 98 => 90 case 99 => 91
               case 100 => 92 case 101 => 93 case 102 => 93 case _ => 94)
          else
            (match t case 104 => 95 case 105 => 97 case 106 => 98 case 107 => 99
             case 108 => 100 case 109 => 101 case 110 => 102 case _ => 103)
        else
          if t < 120 then
            (match t case 112 => 104 case 113 => 105 case 114 => 106 case 115 => 107
             case 116 => 109 case 117 => 110 case 118 => 111 case _ => 113)
          else
            (match t case 120 => 114 case 121 => 115 case 122 => 116 case 123 => 117
             case 124 => 118 case 125 => 119 case 126 => 120 case _ => 121)
      else
        if t < 152 then
          if t < 144 then
            if t < 136 then
              (match t case 128 => 122 case 129 => 123 case 130 => 124 case 131 => 125
               case 132 => 126 case 133 => 127 case 134 => 128 case _ => 129)
            else
              (match t case 136 => 130 case 137 => 131 case 138 => 132 case 139 => 133
               case 140 => 134 case 141 => 135 case 142 => 136 case _ => 138)
          else
            (match t case 144 => 139 case 145 => 140 case 146 => 141 case 147 => 142
             case 148 => 143 case 149 => 145 case 150 => 146 case _ => 147)
        else
          if t < 160 then
            (match t case 152 => 150 case 153 => 151 case 154 => 152 case 155 => 153
             case 156 => 154 case 157 => 155 case 158 => 157 case _ => 158)
          else
            (match t case 160 => 159 case 161 => 160 case 162 => 161 case 163 => 162 case _ => 163)
  }

  /** The class of the last byte on that path. */
  function PathClass(t: int): int {
    if t < 88 then
      if t < 48 then
        if t < 24 then
          if t < 16 then
            if t < 8 then
              (match t case 0 => 0 case 1 => 0 case 2 => 0 case 3 => 0
               case 4 => 0 case 5 => 0 case 6 => 0 case _ => 0)
            else
              (match t case 8 => 0 case 9 => 0 case 10 => 0 case 11 => 0
               case 12 => 0 case 13 => 11 case 14 => 21 case _ => 25)
          else
            (match t case 16 => 26 case 17 => 27 case 18 => 0 case 19 => 0
             case 20 => 0 case 21 => 0 case 22 => 0 case _ => 0)
        else
          if t < 40 then
            if t < 32 then
              (match t case 24 => 17 case 25 => 9 case 26 => 10 case 27 => 13
               case 28 => 11 case 29 => 13 case 30 => 20 case _ => 25)
            else
              (match t case 32 => 25 case 33 => 30 case 34 => 33 case 35 => 9
               case 36 => 16 case 37 => 26 case 38 => 13 case _ => 28)
          else
            (match t case 40 => 11 case 41 => 33 case 42 => 20 case 43 => 20
             case 44 => 13 case 45 => 26 case 46 => 13 case _ => 22)
      else
        if t < 72 then
          if t < 64 then
            if t < 56 then
              (match t case 48 => 20 case 49 => 24 case 50 => 23 case 51 => 33
               case 52 => 12 case 53 => 17 case 54 => 24 case _ => 19)
            else
              (match t case 56 => 13 case 57 => 23 case 58 => 15 case 59 => 27
               case 60 => 28 case 61 => 23 case 62 => 33 case _ => 33)
          else
            (match t case 64 => 33 case 65 => 25 case 66 => 33 case 67 => 17
             case 68 => 20 case 69 => 22 case 70 => 27 case _ => 9)
        else
          if t < 80 then
            (match t case 72 => 12 case 73 => 10 case 74 => 27 case 75 => 20
             case 76 => 21 case 77 => 13 case 78 => 33 case _ => 17)
          else
            (match t case 80 => 11 case 81 => 17 case 82 => 28 case 83 => 26
             case 84 => 13 case 85 => 13 case 86 => 25 case _ => 26)
    else
      if t < 128 then
        if t < 112 then
          if t < 104 then
            if t < 96 then
              (match t case 88 => 21 case 89 => 11 case 90 => 26 case 91 => 14
               case 92 => 29 case 93 => 33 case 94 => 33 case _ => 17)
            else
              (match t case 96 => 13 case 97 => 13 case 98 => 24 case 99 => 14
               case 100 => 13 case 101 => 12 case 102 => 28 case _ => 24)
          else
            (match t case 104 => 31 case 105 => 24 case 106 => 9 case 107 => 13
             case 108 => 20 case 109 => 13 case 110 => 26 case _ => 25)
        else
          if t < 120 then
            (match t case 112 => 13 case 113 => 27 case 114 => 27 case 115 => 25
             case 116 => 9 case 117 => 13 case 118 => 13 case _ => 33)
          else
            (match t case 120 => 11 case 121 => 33 case 122 => 12 case 123 => 25
             case 124 => 13 case 125 => 28 case 126 => 16 case _ => 26)
      else
        if t < 152 then
          if t < 144 then
            if t < 136 then
              (match t case 128 => 33 case 129 => 33 case 130 => 21 case 131 => 25
               case 132 => 33 case 133 => 17 case 134 => 20 case _ => 12)
            else
              (match t case 136 => 24 case 137 => 17 case 138 => 28 case 139 => 31
               case 140 => 17 case 141 => 13 case 142 => 27 case _ => 25)
          else
            (match t case 144 => 13 case 145 => 22 case 146 => 14 case 147 => 17
             case 148 => 17 case 149 => 13 case 150 => 17 case _ => 29)
        else
          if t < 160 then
            (match t case 152 => 22 case 153 => 13 case 154 => 13 case 155 => 33
             case 156 => 12 case 157 => 12 case 158 => 13 case _ => 9)
          else
            (match t case 160 => 12 case 161 => 20 case 162 => 17 case 163 => 22 case _ => 13)
  }

  /** The last byte on that path. */
  function Letter(t: int): int { ClassByte(PathClass(t)) }

  /** The one byte of a class that occurs in keywords. */
  function ClassByte(c: int): int {
    match c
    case 9 => 'A' as int case 10 => 'B' as int case 11 => 'C' as int case 12 => 'D' as int case 13 => 'E' as int
    case 14 => 'F' as int case 15 => 'G' as int case 16 => 'H' as int case 17 => 'I' as int case 19 => 'K' as int
    case 20 => 'L' as int case 21 => 'M' as int case 22 => 'N' as int case 23 => 'O' as int case 24 => 'P' as int
    case 25 => 'R' as int case 26 => 'S' as int case 27 => 'T' as int case 28 => 'U' as int case 29 => 'V' as int
    case 30 => 'X' as int case 31 => 'Z' as int case 33 => '_' as int
    case _ => -1
  }

  /** What the classes say about a byte of text. */
  lemma ClassMeaning(b: Byte)
    ensures var c := ClassOf(b);
            && (c == 2 <==> IsBlank(b)) && (c == 3 <==> b == NEWLINE) && (c == 4 <==> b == QUOTE)
            && (c == 5 <==> b == ',' as int) && (c == 6 <==> b == '-' as int) && (c == 7 <==> IsDigit(b))
            && (c == 8 <==> b == ';' as int) && (c == 32 <==> b == BACKSLASH)
            && (9 <= c <= 31 <==> IsLetter(b)) && (c == 33 <==> b == '_' as int)
  {
  }

  /** Classes with a byte of their own have no other. */
  lemma ClassIsByte(b: Byte)
    ensures ClassByte(ClassOf(b)) >= 0 ==> ClassByte(ClassOf(b)) == b
  {
  }

  /** Every entry of a keyword state leads to a keyword state, which no other entry leads to. */
  lemma EntryBelongs(i: int)
    requires 0 <= i < 222 && InTrie(Chk(i))
    ensures InTrie(Nxt(i)) && Slot(Nxt(i)) == i
  {
  }

  lemma EntryParent(i: int)
    requires 0 <= i < 222 && InTrie(Nxt(i))
    ensures Parent(Nxt(i)) == Chk(i)
  {
  }

  lemma SlotLeadsTo(t: int)
    requires InTrie(t)
    ensures 0 <= Slot(t) < 222 && Nxt(Slot(t)) == t
  {
  }

  lemma SlotClassLow(t: int)
    requires InTrie(t) && t < 90
    ensures Slot(t) == Base(Parent(t)) + PathClass(t)
  {
  }

  lemma SlotClassHigh(t: int)
    requires InTrie(t) && 90 <= t
    ensures Slot(t) == Base(Parent(t)) + PathClass(t)
  {
  }

  lemma SlotClass(t: int)
    requires InTrie(t)
    ensures Slot(t) == Base(Parent(t)) + PathClass(t)
  {
    hide Slot, Base, Parent, PathClass;
    if t < 90 { SlotClassLow(t); } else { SlotClassHigh(t); }
  }

  /** A keyword state is entered from the start or an earlier keyword state, on a class with one byte only. */
  lemma PathOrder(t: int)
    requires InTrie(t)
    ensures Parent(t) == 1 || InTrie(Parent(t))
    ensures Parent(t) < t && Def(t) == 167 && 0 <= Base(t) < 188
    ensures 9 <= PathClass(t) <= 33 && PathClass(t) != 18 && PathClass(t) != 32
    ensures Parent(t) == 1 ==> PathClass(t) <= 31
  {
  }

  lemma ClassOfClassByte(c: int)
    requires 9 <= c <= 33 && c != 18 && c != 32
    ensures 0 < ClassByte(c) < 128 && Ec(ClassByte(c)) == c
  {
  }

  /** A keyword state, its parent and the letter between them. */
  lemma TrieStep(t: int)
    requires InTrie(t)
    ensures var p, c := Parent(t), PathClass(t);
            && (p == 1 || InTrie(p)) && p < t
            && 9 <= c <= 33 && c != 18 && c != 32 && (p == 1 ==> c <= 31)
            && Chk(Base(p) + c) == p && Nxt(Base(p) + c) == t
            && 0 < Letter(t) < 128 && Ec(Letter(t)) == c
  {
    hide Chk, Nxt, Base, Def, Ec, Slot, Parent, PathClass, ClassByte;
    PathOrder(t);
    SlotLeadsTo(t);
    EntryParent(Slot(t));
    SlotClass(t);
    ClassOfClassByte(PathClass(t));
  }

  /** An entry of a keyword state extends its path by the one byte of its class. */
  lemma TrieEntry(s: int, c: int)
    requires InTrie(s) && 0 < c < 34 && Chk(Base(s) + c) == s
    ensures var t := Nxt(Base(s) + c);
            InTrie(t) && Parent(t) == s && PathClass(t) == c
  {
    hide Chk, Nxt, Base, Def, Slot, Parent, PathClass;
    PathOrder(s);
    EntryBelongs(Base(s) + c);
    EntryParent(Base(s) + c);
    SlotClass(Nxt(Base(s) + c));
  }

  // -------------------------------------------------------------- the flat transition

  /** Where the first byte of a token leads. */
  function FirstState(c: Class): int {
    match c
    case 2 => 5
    case 3 => 6
    case 4 => 7
    case 5 => 8
    case 6 => 9
    case 7 => 10
    case 8 => 11
    case 11 => 13
    case 21 => 14
    case 25 => 15
    case 26 => 16
    case 27 => 17
    case _ => if 9 <= c <= 31 then 12 else 4
  }

  predicate IdentClass(c: Class) { c == 7 || 9 <= c <= 31 || c == 33 }

  function IdentNext(c: Class): int { if IdentClass(c) then 23 else 165 }

  /** A state a token can be in. */
  predicate TokenState(s: int) { 1 <= s <= 165 && s != 2 && s != 3 }

  /** The one total transition function behind the compressed rows, for a byte of text. */
  function Next(s: int, c: Class): int
    requires TokenState(s)
  {
    if s == 1 then FirstState(c)
    else if s == 5 || s == 18 then (if c == 2 then 18 else 165)
    else if s == 10 || s == 22 then (if c == 7 then 22 else 165)
    else if s == 7 || s == 19 then (if c == 4 then 20 else if c == 32 then 21 else 19)
    else if s == 21 then (if c == 3 then 165 else 19)
    else if s == 12 || s == 23 then IdentNext(c)
    else if InTrie(s) then (if Chk(Base(s) + c) == s then Nxt(Base(s) + c) else IdentNext(c))
    else 165
  }

  lemma MetaOfIdent(c: Class)
    ensures Meta(c) == 2 <==> IdentClass(c)
  {
  }

  lemma StartEntries(c: Class)
    requires c != 0
    ensures Base(1) == 0 && Chk(c) == 1 && Nxt(c) == FirstState(c)
  {
  }

  lemma BlankAndDigitEntries(s: int, c: Class)
    requires (s == 5 || s == 18 || s == 10 || s == 22) && c != 0
    ensures Def(s) == 165 && (Chk(Base(s) + c) == s <==> Next(s, c) != 165)
    ensures Chk(Base(s) + c) == s ==> Nxt(Base(s) + c) == Next(s, c)
  {
  }

  lemma StringEntries(s: int, c: Class)
    requires (s == 7 || s == 19 || s == 21) && c != 0
    ensures Def(s) == 166 && (Chk(Base(s) + c) == s <==> Next(s, c) != 19)
    ensures Chk(Base(s) + c) == s ==> Nxt(Base(s) + c) == Next(s, c)
  {
  }

  lemma PlainIdentEntries(s: int, c: Class)
    requires (s == 12 || s == 23) && c != 0
    ensures Def(s) == 167 && Chk(Base(s) + c) != s
  {
  }

  lemma FinalEntries(s: int, c: Class)
    requires (s == 4 || s == 6 || s == 8 || s == 9 || s == 11 || s == 20) && c != 0
    ensures Def(s) == 165 && Chk(Base(s) + c) != s
  {
  }

  /** The walk computes the flat transition, in every state and for every class of text. */
  lemma WalkIsNext(s: int, c: Class)
    requires TokenState(s) && c != 0
    ensures Walk(s, c) == Next(s, c)
  {
    hide Chk, Nxt, Base, Def, Meta, FirstState, Parent, PathClass;
    FallbackDescends(s, c);
    JamRow(c);
    IdentTemplate(c);
    StringTemplate(c);
    MetaOfIdent(c);
    if s == 1 { StartEntries(c); }
    else if s == 5 || s == 18 || s == 10 || s == 22 { BlankAndDigitEntries(s, c); }
    else if s == 7 || s == 19 || s == 21 { StringEntries(s, c); }
    else if s == 12 || s == 23 { PlainIdentEntries(s, c); }
    else if InTrie(s) { PathOrder(s); }
    else if s != 165 { FinalEntries(s, c); }
  }

  lemma EndMarkEntries(s: int)
    requires 1 <= s < 165 && s != 3
    ensures Chk(Base(s)) != s && Meta(0) == 0
    ensures s != 2 ==> Def(s) == 165 || Def(s) == 166 || Def(s) == 167
    ensures Def(2) == 1 && Def(1) == 165 && Chk(Base(1)) != 1
  {
  }

  lemma EndMarkStateEntries(c: Class)
    ensures Def(3) == 165 && (Chk(Base(3) + c) == 3 <==> c == 0) && Nxt(Base(3)) == 165
  {
  }

  /** Every state goes to state 3 on an end mark, and state 3 jams on whatever follows. */
  lemma EndMark(s: int, c: Class)
    requires 1 <= s <= 165 && s != 3
    ensures Walk(s, 0) == 3 && Walk(3, c) == 165
  {
    hide Chk, Nxt, Base, Def, Meta;
    JamRow(0);
    JamRow(c);
    IdentTemplate(0);
    StringTemplate(0);
    EndMarkStateEntries(c);
    FallbackDescends(3, c);
    if s != 165 {
      EndMarkEntries(s);
      FallbackDescends(s, 0);
      FallbackDescends(1, 0);
    }
  }

  /** States whose base is 188 have nowhere to go; the others never accept past their last byte unseen. */
  lemma FinalStates(s: int, c: Class)
    requires TokenState(s) && c != 0
    ensures Base(s) == 188 <==> s == 4 || s == 6 || s == 8 || s == 9 || s == 11 || s == 20 || s == 165
    ensures Base(s) == 188 ==> Next(s, c) == 165
    ensures Base(3) != 188 && Accept(3) == 21 && Accept(165) == 0 && Accept(1) == 0
  {
  }

  /** What each state accepts. */
  lemma AcceptOf(s: int)
    requires TokenState(s)
    ensures Accept(s) ==
            if s == 1 || s == 19 || s == 21 || s == 165 then 0
            else if s == 4 || s == 7 then 19 else if s == 5 || s == 18 then 17 else if s == 6 then 18
            else if s == 8 then 12 else if s == 9 then 14 else if s == 10 || s == 22 then 11
            else if s == 11 then 13 else if s == 20 then 16
            else if s == 112 then 1 else if s == 96 then 2 else if s == 144 then 3 else if s == 83 then 4
            else if s == 149 then 5 else if s == 156 then 6 else if s == 137 then 7 else if s == 148 then 8
            else if s == 164 then 9 else if s == 108 then 10
            else 15
  {
  }

  lemma NextIsTokenState(s: int, c: Class)
    requires TokenState(s) && c != 0
    ensures TokenState(Next(s, c)) && Next(s, c) != 1
  {
    hide Chk, Nxt, Base, Parent, PathClass;
    if InTrie(s) && Chk(Base(s) + c) == s { TrieEntry(s, c); }
  }
}
