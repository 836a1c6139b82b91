/**
The compressed tables of the generated scanner, `src/parser/scanner.c`, and the walk over them.

Each table is a function from index to entry.  It first finds the block of eight the index
lies in, then lists the entries of the block in the order of the source.
*/
module ScannerTables {

  /** `yy_accept`: the rule a state accepts, 0 for none. */
  function Accept(s: int): int {
    if s < 88 then
      if s < 48 then
        if s < 24 then
          if s < 16 then
            if s < 8 then
              (match s case 0 => 0 case 1 => 0 case 2 => 0 case 3 => 21
               case 4 => 19 case 5 => 17 case 6 => 18 case _ => 19)
            else
              (match s case 8 => 12 case 9 => 14 case 10 => 11 case 11 => 13
               case 12 => 15 case 13 => 15 case 14 => 15 case _ => 15)
          else
            (match s case 16 => 15 case 17 => 15 case 18 => 17 case 19 => 0
             case 20 => 16 case 21 => 0 case 22 => 11 case _ => 15)
        else
          if s < 40 then
            if s < 32 then
              (match s case 24 => 15 case 25 => 15 case 26 => 15 case 27 => 15
               case 28 => 15 case 29 => 15 case 30 => 15 case _ => 15)
            else
              (match s case 32 => 15 case 33 => 15 case 34 => 15 case 35 => 15
               case 36 => 15 case 37 => 15 case 38 => 15 case _ => 15)
          else
            (match s case 40 => 15 case 41 => 15 case 42 => 15 case 43 => 15
             case 44 => 15 case 45 => 15 case 46 => 15 case _ => 15)
      else
        if s < 72 then
          if s < 64 then
            if s < 56 then
              (match s case 48 => 15 case 49 => 15 case 50 => 15 case 51 => 15
               case 52 => 15 case 53 => 15 case 54 => 15 case _ => 15)
            else
              (match s case 56 => 15 case 57 => 15 case 58 => 15 case 59 => 15
               case 60 => 15 case 61 => 15 case 62 => 15 case _ => 15)
          else
            (match s case 64 => 15 case 65 => 15 case 66 => 15 case 67 => 15
             case 68 => 15 case 69 => 15 case 70 => 15 case _ => 15)
        else
          if s < 80 then
            (match s case 72 => 15 case 73 => 15 case 74 => 15 case 75 => 15
             case 76 => 15 case 77 => 15 case 78 => 15 case _ => 15)
          else
            (match s case 80 => 15 case 81 => 15 case 82 => 15 case 83 => 4
             case 84 => 15 case 85 => 15 case 86 => 15 case _ => 15)
    else
      if s < 128 then
        if s < 112 then
          if s < 104 then
            if s < 96 then
              (match s case 88 => 15 case 89 => 15 case 90 => 15 case 91 => 15
               case 92 => 15 case 93 => 15 case 94 => 15 case _ => 15)
            else
              (match s case 96 => 2 case 97 => 15 case 98 => 15 case 99 => 15
               case 100 => 15 case 101 => 15 case 102 => 15 case _ => 15)
          else
            (match s case 104 => 15 case 105 => 15 case 106 => 15 case 107 => 15
             case 108 => 10 case 109 => 15 case 110 => 15 case _ => 15)
        else
          if s < 120 then
            (match s case 112 => 1 case 113 => 15 case 114 => 15 case 115 => 15
             case 116 => 15 case 117 => 15 case 118 => 15 case _ => 15)
          else
            (match s case 120 => 15 case 121 => 15 case 122 => 15 case 123 => 15
             case 124 => 15 case 125 => 15 case 126 => 15 case _ => 15)
      else
        if s < 152 then
          if s < 144 then
            if s < 136 then
              (match s case 128 => 15 case 129 => 15 case 130 => 15 case 131 => 15
               case 132 => 15 case 133 => 15 case 134 => 15 case _ => 15)
            else
              (match s case 136 => 15 case 137 => 7 case 138 => 15 case 139 => 15
               case 140 => 15 case 141 => 15 case 142 => 15 case _ => 15)
          else
            (match s case 144 => 3 case 145 => 15 case 146 => 15 case 147 => 15
             case 148 => 8 case 149 => 5 case 150 => 15 case _ => 15)
        else
          if s < 160 then
            (match s case 152 => 15 case 153 => 15 case 154 => 15 case 155 => 15
             case 156 => 6 case 157 => 15 case 158 => 15 case _ => 15)
          else
            (match s case 160 => 15 case 161 => 15 case 162 => 15 case 163 => 15 case 164 => 9 case _ => 0)
  }

  /** `yy_ec`: the character class of a byte. */
  function Ec(b: int): int {
    if b < 128 then
      if b < 64 then
        if b < 32 then
          if b < 16 then
            if b < 8 then
              (match b case 0 => 0 case 1 => 1 case 2 => 1 case 3 => 1
               case 4 => 1 case 5 => 1 case 6 => 1 case _ => 1)
            else
              (match b case 8 => 1 case 9 => 2 case 10 => 3 case 11 => 1
               case 12 => 1 case 13 => 1 case 14 => 1 case _ => 1)
          else
            if b < 24 then
              (match b case 16 => 1 case 17 => 1 case 18 => 1 case 19 => 1
               case 20 => 1 case 21 => 1 case 22 => 1 case _ => 1)
            else
              (match b case 24 => 1 case 25 => 1 case 26 => 1 case 27 => 1
               case 28 => 1 case 29 => 1 case 30 => 1 case _ => 1)
        else
          if b < 48 then
            if b < 40 then
              (match b case 32 => 2 case 33 => 1 case 34 => 4 case 35 => 1
               case 36 => 1 case 37 => 1 case 38 => 1 case _ => 1)
            else
              (match b case 40 => 1 case 41 => 1 case 42 => 1 case 43 => 1
               case 44 => 5 case 45 => 6 case 46 => 1 case _ => 1)
          else
            if b < 56 then
              (match b case 48 => 7 case 49 => 7 case 50 => 7 case 51 => 7
               case 52 => 7 case 53 => 7 case 54 => 7 case _ => 7)
            else
              (match b case 56 => 7 case 57 => 7 case 58 => 1 case 59 => 8
               case 60 => 1 case 61 => 1 case 62 => 1 case _ => 1)
      else
        if b < 96 then
          if b < 80 then
            if b < 72 then
              (match b case 64 => 1 case 65 => 9 case 66 => 10 case 67 => 11
               case 68 => 12 case 69 => 13 case 70 => 14 case _ => 15)
            else
              (match b case 72 => 16 case 73 => 17 case 74 => 18 case 75 => 19
               case 76 => 20 case 77 => 21 case 78 => 22 case _ => 23)
          else
            if b < 88 then
              (match b case 80 => 24 case 81 => 18 case 82 => 25 case 83 => 26
               case 84 => 27 case 85 => 28 case 86 => 29 case _ => 18)
            else
              (match b case 88 => 30 case 89 => 18 case 90 => 31 case 91 => 1
               case 92 => 32 case 93 => 1 case 94 => 1 case _ => 33)
        else
          if b < 112 then
            if b < 104 then
              (match b case 96 => 1 case 97 => 18 case 98 => 18 case 99 => 18
               case 100 => 18 case 101 => 18 case 102 => 18 case _ => 18)
            else
              (match b case 104 => 18 case 105 => 18 case 106 => 18 case 107 => 18
               case 108 => 18 case 109 => 18 case 110 => 18 case _ => 18)
          else
            if b < 120 then
              (match b case 112 => 18 case 113 => 18 case 114 => 18 case 115 => 18
               case 116 => 18 case 117 => 18 case 118 => 18 case _ => 18)
            else
              (match b case 120 => 18 case 121 => 18 case 122 => 18 case 123 => 1
               case 124 => 1 case 125 => 1 case 126 => 1 case _ => 1)
    else
      if b < 192 then
        if b < 160 then
          if b < 144 then
            if b < 136 then
              (match b case 128 => 1 case 129 => 1 case 130 => 1 case 131 => 1
               case 132 => 1 case 133 => 1 case 134 => 1 case _ => 1)
            else
              (match b case 136 => 1 case 137 => 1 case 138 => 1 case 139 => 1
               case 140 => 1 case 141 => 1 case 142 => 1 case _ => 1)
          else
            if b < 152 then
              (match b case 144 => 1 case 145 => 1 case 146 => 1 case 147 => 1
               case 148 => 1 case 149 => 1 case 150 => 1 case _ => 1)
            else
              (match b case 152 => 1 case 153 => 1 case 154 => 1 case 155 => 1
               case 156 => 1 case 157 => 1 case 158 => 1 case _ => 1)
        else
          if b < 176 then
            if b < 168 then
              (match b case 160 => 1 case 161 => 1 case 162 => 1 case 163 => 1
               case 164 => 1 case 165 => 1 case 166 => 1 case _ => 1)
            else
              (match b case 168 => 1 case 169 => 1 case 170 => 1 case 171 => 1
               case 172 => 1 case 173 => 1 case 174 => 1 case _ => 1)
          else
            if b < 184 then
              (match b case 176 => 1 case 177 => 1 case 178 => 1 case 179 => 1
               case 180 => 1 case 181 => 1 case 182 => 1 case _ => 1)
            else
              (match b case 184 => 1 case 185 => 1 case 186 => 1 case 187 => 1
               case 188 => 1 case 189 => 1 case 190 => 1 case _ => 1)
      else
        if b < 224 then
          if b < 208 then
            if b < 200 then
              (match b case 192 => 1 case 193 => 1 case 194 => 1 case 195 => 1
               case 196 => 1 case 197 => 1 case 198 => 1 case _ => 1)
            else
              (match b case 200 => 1 case 201 => 1 case 202 => 1 case 203 => 1
               case 204 => 1 case 205 => 1 case 206 => 1 case _ => 1)
          else
            if b < 216 then
              (match b case 208 => 1 case 209 => 1 case 210 => 1 case 211 => 1
               case 212 => 1 case 213 => 1 case 214 => 1 case _ => 1)
            else
              (match b case 216 => 1 case 217 => 1 case 218 => 1 case 219 => 1
               case 220 => 1 case 221 => 1 case 222 => 1 case _ => 1)
        else
          if b < 240 then
            if b < 232 then
              (match b case 224 => 1 case 225 => 1 case 226 => 1 case 227 => 1
               case 228 => 1 case 229 => 1 case 230 => 1 case _ => 1)
            else
              (match b case 232 => 1 case 233 => 1 case 234 => 1 case 235 => 1
               case 236 => 1 case 237 => 1 case 238 => 1 case _ => 1)
          else
            if b < 248 then
              (match b case 240 => 1 case 241 => 1 case 242 => 1 case 243 => 1
               case 244 => 1 case 245 => 1 case 246 => 1 case _ => 1)
            else
              (match b case 248 => 1 case 249 => 1 case 250 => 1 case 251 => 1
               case 252 => 1 case 253 => 1 case 254 => 1 case _ => 1)
  }

  /** `yy_meta`: the class of a class, used in template states. */
  function Meta(c: int): int {
    if c < 24 then
      if c < 16 then
        if c < 8 then
          (match c case 0 => 0 case 1 => 1 case 2 => 1 case 3 => 1
           case 4 => 1 case 5 => 1 case 6 => 1 case _ => 2)
        else
          (match c case 8 => 1 case 9 => 2 case 10 => 2 case 11 => 2
           case 12 => 2 case 13 => 2 case 14 => 2 case _ => 2)
      else
        (match c case 16 => 2 case 17 => 2 case 18 => 2 case 19 => 2
         case 20 => 2 case 21 => 2 case 22 => 2 case _ => 2)
    else
      if c < 32 then
        (match c case 24 => 2 case 25 => 2 case 26 => 2 case 27 => 2
         case 28 => 2 case 29 => 2 case 30 => 2 case _ => 2)
      else
        (match c case 32 => 1 case _ => 2)
  }

  /** `yy_base`: where a state's row starts. */
  function Base(s: int): int {
    if s < 88 then
      if s < 48 then
        if s < 24 then
          if s < 16 then
            if s < 8 then
              (match s case 0 => 0 case 1 => 0 case 2 => 0 case 3 => 187
               case 4 => 188 case 5 => 184 case 6 => 188 case _ => 30)
            else
              (match s case 8 => 188 case 9 => 188 case 10 => 178 case 11 => 188
               case 12 => 0 case 13 => 167 case 14 => 174 case _ => 25)
          else
            (match s case 16 => 26 case 17 => 157 case 18 => 179 case 19 => 32
             case 20 => 188 case 21 => 177 case 22 => 172 case _ => 0)
        else
          if s < 40 then
            if s < 32 then
              (match s case 24 => 153 case 25 => 147 case 26 => 143 case 27 => 166
               case 28 => 158 case 29 => 147 case 30 => 159 case _ => 143)
            else
              (match s case 32 => 159 case 33 => 136 case 34 => 148 case 35 => 147
               case 36 => 153 case 37 => 139 case 38 => 151 case _ => 141)
          else
            (match s case 40 => 142 case 41 => 137 case 42 => 137 case 43 => 126
             case 44 => 146 case 45 => 140 case 46 => 132 case _ => 136)
      else
        if s < 72 then
          if s < 64 then
            if s < 56 then
              (match s case 48 => 141 case 49 => 130 case 50 => 137 case 51 => 124
               case 52 => 122 case 53 => 126 case 54 => 115 case _ => 114)
            else
              (match s case 56 => 113 case 57 => 120 case 58 => 111 case 59 => 126
               case 60 => 122 case 61 => 119 case 62 => 113 case _ => 31)
          else
            (match s case 64 => 129 case 65 => 111 case 66 => 117 case 67 => 115
             case 68 => 122 case 69 => 101 case 70 => 116 case _ => 121)
        else
          if s < 80 then
            (match s case 72 => 114 case 73 => 102 case 74 => 103 case 75 => 115
             case 76 => 114 case 77 => 101 case 78 => 99 case _ => 103)
          else
            (match s case 80 => 112 case 81 => 96 case 82 => 107 case 83 => 0
             case 84 => 91 case 85 => 86 case 86 => 85 case _ => 100)
    else
      if s < 128 then
        if s < 112 then
          if s < 104 then
            if s < 96 then
              (match s case 88 => 103 case 89 => 102 case 90 => 90 case 91 => 99
               case 92 => 99 case 93 => 29 case 94 => 87 case _ => 79)
            else
              (match s case 96 => 0 case 97 => 85 case 98 => 99 case 99 => 94
               case 100 => 86 case 101 => 92 case 102 => 78 case _ => 78)
          else
            (match s case 104 => 89 case 105 => 74 case 106 => 73 case 107 => 74
             case 108 => 0 case 109 => 89 case 110 => 84 case _ => 83)
        else
          if s < 120 then
            (match s case 112 => 0 case 113 => 62 case 114 => 83 case 115 => 60
             case 116 => 80 case 117 => 66 case 118 => 77 case _ => 61)
          else
            (match s case 120 => 72 case 121 => 61 case 122 => 53 case 123 => 52
             case 124 => 63 case 125 => 58 case 126 => 49 case _ => 64)
      else
        if s < 152 then
          if s < 144 then
            if s < 136 then
              (match s case 128 => 60 case 129 => 67 case 130 => 54 case 131 => 60
               case 132 => 48 case 133 => 44 case 134 => 57 case _ => 60)
            else
              (match s case 136 => 45 case 137 => 0 case 138 => 46 case 139 => 57
               case 140 => 47 case 141 => 54 case 142 => 50 case _ => 46)
          else
            (match s case 144 => 0 case 145 => 48 case 146 => 43 case 147 => 30
             case 148 => 0 case 149 => 0 case 150 => 36 case _ => 43)
        else
          if s < 160 then
            (match s case 152 => 42 case 153 => 21 case 154 => 41 case 155 => 40
             case 156 => 0 case 157 => 38 case 158 => 41 case _ => 37)
          else
            (match s case 160 => 28 case 161 => 30 case 162 => 23 case 163 => 31
             case 164 => 0 case 165 => 188 case 166 => 64 case _ => 40)
  }

  /** `yy_def`: the state whose row is consulted when a row has no entry. */
  function Def(s: int): int {
    if s < 88 then
      if s < 48 then
        if s < 24 then
          if s < 16 then
            if s < 8 then
              (match s case 0 => 0 case 1 => 165 case 2 => 1 case 3 => 165
               case 4 => 165 case 5 => 165 case 6 => 165 case _ => 166)
            else
              (match s case 8 => 165 case 9 => 165 case 10 => 165 case 11 => 165
               case 12 => 167 case 13 => 167 case 14 => 167 case _ => 167)
          else
            (match s case 16 => 167 case 17 => 167 case 18 => 165 case 19 => 166
             case 20 => 165 case 21 => 166 case 22 => 165 case _ => 167)
        else
          if s < 40 then
            if s < 32 then
              (match s case 24 => 167 case 25 => 167 case 26 => 167 case 27 => 167
               case 28 => 167 case 29 => 167 case 30 => 167 case _ => 167)
            else
              (match s case 32 => 167 case 33 => 167 case 34 => 167 case 35 => 167
               case 36 => 167 case 37 => 167 case 38 => 167 case _ => 167)
          else
            (match s case 40 => 167 case 41 => 167 case 42 => 167 case 43 => 167
             case 44 => 167 case 45 => 167 case 46 => 167 case _ => 167)
      else
        if s < 72 then
          if s < 64 then
            if s < 56 then
              (match s case 48 => 167 case 49 => 167 case 50 => 167 case 51 => 167
               case 52 => 167 case 53 => 167 case 54 => 167 case _ => 167)
            else
              (match s case 56 => 167 case 57 => 167 case 58 => 167 case 59 => 167
               case 60 => 167 case 61 => 167 case 62 => 167 case _ => 167)
          else
            (match s case 64 => 167 case 65 => 167 case 66 => 167 case 67 => 167
             case 68 => 167 case 69 => 167 case 70 => 167 case _ => 167)
        else
          if s < 80 then
            (match s case 72 => 167 case 73 => 167 case 74 => 167 case 75 => 167
             case 76 => 167 case 77 => 167 case 78 => 167 case _ => 167)
          else
            (match s case 80 => 167 case 81 => 167 case 82 => 167 case 83 => 167
             case 84 => 167 case 85 => 167 case 86 => 167 case _ => 167)
    else
      if s < 128 then
        if s < 112 then
          if s < 104 then
            if s < 96 then
              (match s case 88 => 167 case 89 => 167 case 90 => 167 case 91 => 167
               case 92 => 167 case 93 => 167 case 94 => 167 case _ => 167)
            else
              (match s case 96 => 167 case 97 => 167 case 98 => 167 case 99 => 167
               case 100 => 167 case 101 => 167 case 102 => 167 case _ => 167)
          else
            (match s case 104 => 167 case 105 => 167 case 106 => 167 case 107 => 167
             case 108 => 167 case 109 => 167 case 110 => 167 case _ => 167)
        else
          if s < 120 then
            (match s case 112 => 167 case 113 => 167 case 114 => 167 case 115 => 167
             case 116 => 167 case 117 => 167 case 118 => 167 case _ => 167)
          else
            (match s case 120 => 167 case 121 => 167 case 122 => 167 case 123 => 167
             case 124 => 167 case 125 => 167 case 126 => 167 case _ => 167)
      else
        if s < 152 then
          if s < 144 then
            if s < 136 then
              (match s case 128 => 167 case 129 => 167 case 130 => 167 case 131 => 167
               case 132 => 167 case 133 => 167 case 134 => 167 case _ => 167)
            else
              (match s case 136 => 167 case 137 => 167 case 138 => 167 case 139 => 167
               case 140 => 167 case 141 => 167 case 142 => 167 case _ => 167)
          else
            (match s case 144 => 167 case 145 => 167 case 146 => 167 case 147 => 167
             case 148 => 167 case 149 => 167 case 150 => 167 case _ => 167)
        else
          if s < 160 then
            (match s case 152 => 167 case 153 => 167 case 154 => 167 case 155 => 167
             case 156 => 167 case 157 => 167 case 158 => 167 case _ => 167)
          else
            (match s case 160 => 167 case 161 => 167 case 162 => 167 case 163 => 167
             case 164 => 167 case 165 => 0 case 166 => 165 case _ => 165)
  }

  /** `yy_nxt`: the next state of an entry. */
  function Nxt(i: int): int {
    if i < 112 then
      if i < 56 then
        if i < 32 then
          if i < 16 then
            if i < 8 then
              (match i case 0 => 0 case 1 => 4 case 2 => 5 case 3 => 6
               case 4 => 7 case 5 => 8 case 6 => 9 case _ => 10)
            else
              (match i case 8 => 11 case 9 => 12 case 10 => 12 case 11 => 13
               case 12 => 12 case 13 => 12 case 14 => 12 case _ => 12)
          else
            if i < 24 then
              (match i case 16 => 12 case 17 => 12 case 18 => 12 case 19 => 12
               case 20 => 12 case 21 => 14 case 22 => 12 case _ => 12)
            else
              (match i case 24 => 12 case 25 => 15 case 26 => 16 case 27 => 17
               case 28 => 12 case 29 => 12 case 30 => 12 case _ => 12)
        else
          if i < 48 then
            if i < 40 then
              (match i case 32 => 4 case 33 => 4 case 34 => 20 case 35 => 26
               case 36 => 20 case 37 => 28 case 38 => 27 case _ => 29)
            else
              (match i case 40 => 71 case 41 => 101 case 42 => 23 case 43 => 72
               case 44 => 164 case 45 => 163 case 46 => 30 case _ => 162)
          else
            (match i case 48 => 161 case 49 => 160 case 50 => 159 case 51 => 158
             case 52 => 157 case 53 => 156 case 54 => 155 case _ => 154)
      else
        if i < 88 then
          if i < 72 then
            if i < 64 then
              (match i case 56 => 153 case 57 => 102 case 58 => 152 case 59 => 151
               case 60 => 150 case 61 => 149 case 62 => 21 case _ => 148)
            else
              (match i case 64 => 21 case 65 => 19 case 66 => 19 case 67 => 147
               case 68 => 146 case 69 => 145 case 70 => 144 case _ => 143)
          else
            if i < 80 then
              (match i case 72 => 142 case 73 => 141 case 74 => 140 case 75 => 139
               case 76 => 138 case 77 => 137 case 78 => 136 case _ => 135)
            else
              (match i case 80 => 134 case 81 => 133 case 82 => 132 case 83 => 131
               case 84 => 130 case 85 => 129 case 86 => 128 case _ => 127)
        else
          if i < 104 then
            if i < 96 then
              (match i case 88 => 126 case 89 => 125 case 90 => 124 case 91 => 123
               case 92 => 122 case 93 => 121 case 94 => 120 case _ => 119)
            else
              (match i case 96 => 118 case 97 => 117 case 98 => 116 case 99 => 115
               case 100 => 114 case 101 => 113 case 102 => 112 case _ => 111)
          else
            (match i case 104 => 110 case 105 => 109 case 106 => 108 case 107 => 107
             case 108 => 106 case 109 => 105 case 110 => 104 case _ => 103)
    else
      if i < 168 then
        if i < 144 then
          if i < 128 then
            if i < 120 then
              (match i case 112 => 100 case 113 => 99 case 114 => 98 case 115 => 97
               case 116 => 96 case 117 => 95 case 118 => 94 case _ => 93)
            else
              (match i case 120 => 92 case 121 => 91 case 122 => 90 case 123 => 89
               case 124 => 88 case 125 => 87 case 126 => 86 case _ => 85)
          else
            if i < 136 then
              (match i case 128 => 84 case 129 => 83 case 130 => 82 case 131 => 81
               case 132 => 80 case 133 => 79 case 134 => 78 case _ => 77)
            else
              (match i case 136 => 76 case 137 => 75 case 138 => 74 case 139 => 73
               case 140 => 70 case 141 => 69 case 142 => 68 case _ => 67)
        else
          if i < 160 then
            if i < 152 then
              (match i case 144 => 66 case 145 => 65 case 146 => 64 case 147 => 63
               case 148 => 62 case 149 => 61 case 150 => 60 case _ => 59)
            else
              (match i case 152 => 58 case 153 => 57 case 154 => 56 case 155 => 55
               case 156 => 54 case 157 => 53 case 158 => 52 case _ => 51)
          else
            (match i case 160 => 50 case 161 => 49 case 162 => 48 case 163 => 47
             case 164 => 46 case 165 => 45 case 166 => 44 case _ => 43)
      else
        if i < 200 then
          if i < 184 then
            if i < 176 then
              (match i case 168 => 42 case 169 => 41 case 170 => 40 case 171 => 39
               case 172 => 38 case 173 => 37 case 174 => 36 case _ => 35)
            else
              (match i case 176 => 34 case 177 => 33 case 178 => 32 case 179 => 22
               case 180 => 165 case 181 => 18 case 182 => 31 case _ => 25)
          else
            if i < 192 then
              (match i case 184 => 24 case 185 => 22 case 186 => 18 case 187 => 165
               case 188 => 3 case 189 => 165 case 190 => 165 case _ => 165)
            else
              (match i case 192 => 165 case 193 => 165 case 194 => 165 case 195 => 165
               case 196 => 165 case 197 => 165 case 198 => 165 case _ => 165)
        else
          if i < 216 then
            if i < 208 then
              (match i case 200 => 165 case 201 => 165 case 202 => 165 case 203 => 165
               case 204 => 165 case 205 => 165 case 206 => 165 case _ => 165)
            else
              (match i case 208 => 165 case 209 => 165 case 210 => 165 case 211 => 165
               case 212 => 165 case 213 => 165 case 214 => 165 case _ => 165)
          else
            (match i case 216 => 165 case 217 => 165 case 218 => 165
             case 219 => 165 case 220 => 165 case _ => 165)
  }

  /** `yy_chk`: the state an entry belongs to. */
  function Chk(i: int): int {
    if i < 112 then
      if i < 56 then
        if i < 32 then
          if i < 16 then
            if i < 8 then
              (match i case 0 => 0 case 1 => 1 case 2 => 1 case 3 => 1
               case 4 => 1 case 5 => 1 case 6 => 1 case _ => 1)
            else
              (match i case 8 => 1 case 9 => 1 case 10 => 1 case 11 => 1
               case 12 => 1 case 13 => 1 case 14 => 1 case _ => 1)
          else
            if i < 24 then
              (match i case 16 => 1 case 17 => 1 case 18 => 1 case 19 => 1
               case 20 => 1 case 21 => 1 case 22 => 1 case _ => 1)
            else
              (match i case 24 => 1 case 25 => 1 case 26 => 1 case 27 => 1
               case 28 => 1 case 29 => 1 case 30 => 1 case _ => 1)
        else
          if i < 48 then
            if i < 40 then
              (match i case 32 => 1 case 33 => 1 case 34 => 7 case 35 => 15
               case 36 => 19 case 37 => 16 case 38 => 15 case _ => 16)
            else
              (match i case 40 => 63 case 41 => 93 case 42 => 167 case 43 => 63
               case 44 => 163 case 45 => 162 case 46 => 16 case _ => 161)
          else
            (match i case 48 => 160 case 49 => 159 case 50 => 158 case 51 => 157
             case 52 => 155 case 53 => 154 case 54 => 153 case _ => 152)
      else
        if i < 88 then
          if i < 72 then
            if i < 64 then
              (match i case 56 => 151 case 57 => 93 case 58 => 150 case 59 => 147
               case 60 => 146 case 61 => 145 case 62 => 7 case _ => 143)
            else
              (match i case 64 => 19 case 65 => 166 case 66 => 166 case 67 => 142
               case 68 => 141 case 69 => 140 case 70 => 139 case _ => 138)
          else
            if i < 80 then
              (match i case 72 => 136 case 73 => 135 case 74 => 134 case 75 => 133
               case 76 => 132 case 77 => 131 case 78 => 130 case _ => 129)
            else
              (match i case 80 => 128 case 81 => 127 case 82 => 126 case 83 => 125
               case 84 => 124 case 85 => 123 case 86 => 122 case _ => 121)
        else
          if i < 104 then
            if i < 96 then
              (match i case 88 => 120 case 89 => 119 case 90 => 118 case 91 => 117
               case 92 => 116 case 93 => 115 case 94 => 114 case _ => 113)
            else
              (match i case 96 => 111 case 97 => 110 case 98 => 109 case 99 => 107
               case 100 => 106 case 101 => 105 case 102 => 104 case _ => 103)
          else
            (match i case 104 => 102 case 105 => 101 case 106 => 100 case 107 => 99
             case 108 => 98 case 109 => 97 case 110 => 95 case _ => 94)
    else
      if i < 168 then
        if i < 144 then
          if i < 128 then
            if i < 120 then
              (match i case 112 => 92 case 113 => 91 case 114 => 90 case 115 => 89
               case 116 => 88 case 117 => 87 case 118 => 86 case _ => 85)
            else
              (match i case 120 => 84 case 121 => 82 case 122 => 81 case 123 => 80
               case 124 => 79 case 125 => 78 case 126 => 77 case _ => 76)
          else
            if i < 136 then
              (match i case 128 => 75 case 129 => 74 case 130 => 73 case 131 => 72
               case 132 => 71 case 133 => 70 case 134 => 69 case _ => 68)
            else
              (match i case 136 => 67 case 137 => 66 case 138 => 65 case 139 => 64
               case 140 => 62 case 141 => 61 case 142 => 60 case _ => 59)
        else
          if i < 160 then
            if i < 152 then
              (match i case 144 => 58 case 145 => 57 case 146 => 56 case 147 => 55
               case 148 => 54 case 149 => 53 case 150 => 52 case _ => 51)
            else
              (match i case 152 => 50 case 153 => 49 case 154 => 48 case 155 => 47
               case 156 => 46 case 157 => 45 case 158 => 44 case _ => 43)
          else
            (match i case 160 => 42 case 161 => 41 case 162 => 40 case 163 => 39
             case 164 => 38 case 165 => 37 case 166 => 36 case _ => 35)
      else
        if i < 200 then
          if i < 184 then
            if i < 176 then
              (match i case 168 => 34 case 169 => 33 case 170 => 32 case 171 => 31
               case 172 => 30 case 173 => 29 case 174 => 28 case _ => 27)
            else
              (match i case 176 => 26 case 177 => 25 case 178 => 24 case 179 => 22
               case 180 => 21 case 181 => 18 case 182 => 17 case _ => 14)
          else
            if i < 192 then
              (match i case 184 => 13 case 185 => 10 case 186 => 5 case 187 => 3
               case 188 => 165 case 189 => 165 case 190 => 165 case _ => 165)
            else
              (match i case 192 => 165 case 193 => 165 case 194 => 165 case 195 => 165
               case 196 => 165 case 197 => 165 case 198 => 165 case _ => 165)
        else
          if i < 216 then
            if i < 208 then
              (match i case 200 => 165 case 201 => 165 case 202 => 165 case 203 => 165
               case 204 => 165 case 205 => 165 case 206 => 165 case _ => 165)
            else
              (match i case 208 => 165 case 209 => 165 case 210 => 165 case 211 => 165
               case 212 => 165 case 213 => 165 case 214 => 165 case _ => 165)
          else
            (match i case 216 => 165 case 217 => 165 case 218 => 165
             case 219 => 165 case 220 => 165 case _ => 165)
  }

  // -------------------------------------------------------------- the walk

  /** A state of the automaton: 1 to 165, with 165 the jam state; 166 and 167 are templates. */
  type RowState = s: int | 1 <= s < 168 witness 1

  type Class = c: int | 0 <= c < 34 witness 0

  /** How many rows a walk can still fall back to. */
  function Rank(s: RowState): nat {
    if s == 165 then 0 else if s >= 166 then 1 else if s == 2 then 3 else 2
  }

  /** Every fallback leads to a lower rank, so to the jam state, whose row has an entry for every class. */
  lemma FallbackDescends(s: RowState, c: Class)
    ensures 0 <= Base(s) <= 188
    ensures s != 165 ==> 1 <= Def(s) < 168 && Rank(Def(s)) < Rank(s)
    ensures 0 <= Meta(c) < 34
    ensures Chk(188 + c) == 165
  {
  }

  /** The transition: walk down the fallback rows until one has an entry for the class. */
  function Walk(s: RowState, c: Class): (t: int)
    decreases Rank(s)
  {
    FallbackDescends(s, c);
    if Chk(Base(s) + c) == s then Nxt(Base(s) + c)
    else Walk(Def(s), if Def(s) >= 166 then Meta(c) else c)
  }

  lemma JamEntries(c: Class)
    ensures Base(165) == 188 && Chk(188 + c) == 165 && Nxt(188 + c) == if c == 0 then 3 else 165
  {
  }

  lemma JamRow(c: Class)
    ensures Walk(165, c) == if c == 0 then 3 else 165
  {
    hide Base, Chk, Nxt, Def, Meta;
    JamEntries(c);
  }

  lemma MetaEntries(c: Class)
    ensures 0 <= Meta(c) <= 2 && (Meta(c) == 0 <==> c == 0) && Meta(Meta(c)) == (if c == 0 then 0 else 1)
  {
  }

  lemma TemplateRows()
    ensures Base(167) == 40 && Def(167) == 165 && Base(166) == 64 && Def(166) == 165
    ensures Chk(40) != 167 && Chk(41) != 167 && Chk(42) == 167 && Nxt(42) == 23
    ensures Chk(64) != 166 && Chk(65) == 166 && Chk(66) == 166 && Nxt(65) == 19 && Nxt(66) == 19
  {
  }

  /** What the identifier template adds to a keyword state's own entries. */
  lemma IdentTemplate(c: Class)
    ensures 0 <= Meta(c) < 34
    ensures Walk(167, Meta(c)) == if c == 0 then 3 else if Meta(c) == 2 then 23 else 165
  {
    hide Base, Chk, Nxt, Def, Meta;
    MetaEntries(c);
    TemplateRows();
    JamRow(Meta(c));
  }

  /** The template of the states inside a string. */
  lemma StringTemplate(c: Class)
    ensures 0 <= Meta(c) < 34
    ensures Walk(166, Meta(c)) == if c == 0 then 3 else 19
  {
    hide Base, Chk, Nxt, Def, Meta;
    MetaEntries(c);
    TemplateRows();
    JamRow(Meta(c));
  }
}
