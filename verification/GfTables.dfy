// The constant tables of obl/gf2_8_tables.h, generated for polynomial 285.
// Every table is split into rows of sixteen entries.
module GfTables {
  import opened Gf256

  // GF2_8_LOG: the discrete logarithm to base 2; the entry for 0 is the filler 255.
  function Log(a: Byte): Byte {
    match a >> 4
    case 0 => (match a & 15
      case 0 => 255 case 1 => 0 case 2 => 1 case 3 => 25 case 4 => 2 case 5 => 50 case 6 => 26 case 7 => 198
      case 8 => 3 case 9 => 223 case 10 => 51 case 11 => 238 case 12 => 27 case 13 => 104 case 14 => 199 case _ => 75)
    case 1 => (match a & 15
      case 0 => 4 case 1 => 100 case 2 => 224 case 3 => 14 case 4 => 52 case 5 => 141 case 6 => 239 case 7 => 129
      case 8 => 28 case 9 => 193 case 10 => 105 case 11 => 248 case 12 => 200 case 13 => 8 case 14 => 76 case _ => 113)
    case 2 => (match a & 15
      case 0 => 5 case 1 => 138 case 2 => 101 case 3 => 47 case 4 => 225 case 5 => 36 case 6 => 15 case 7 => 33
      case 8 => 53 case 9 => 147 case 10 => 142 case 11 => 218 case 12 => 240 case 13 => 18 case 14 => 130 case _ => 69)
    case 3 => (match a & 15
      case 0 => 29 case 1 => 181 case 2 => 194 case 3 => 125 case 4 => 106 case 5 => 39 case 6 => 249 case 7 => 185
      case 8 => 201 case 9 => 154 case 10 => 9 case 11 => 120 case 12 => 77 case 13 => 228 case 14 => 114 case _ => 166)
    case 4 => (match a & 15
      case 0 => 6 case 1 => 191 case 2 => 139 case 3 => 98 case 4 => 102 case 5 => 221 case 6 => 48 case 7 => 253
      case 8 => 226 case 9 => 152 case 10 => 37 case 11 => 179 case 12 => 16 case 13 => 145 case 14 => 34 case _ => 136)
    case 5 => (match a & 15
      case 0 => 54 case 1 => 208 case 2 => 148 case 3 => 206 case 4 => 143 case 5 => 150 case 6 => 219 case 7 => 189
      case 8 => 241 case 9 => 210 case 10 => 19 case 11 => 92 case 12 => 131 case 13 => 56 case 14 => 70 case _ => 64)
    case 6 => (match a & 15
      case 0 => 30 case 1 => 66 case 2 => 182 case 3 => 163 case 4 => 195 case 5 => 72 case 6 => 126 case 7 => 110
      case 8 => 107 case 9 => 58 case 10 => 40 case 11 => 84 case 12 => 250 case 13 => 133 case 14 => 186 case _ => 61)
    case 7 => (match a & 15
      case 0 => 202 case 1 => 94 case 2 => 155 case 3 => 159 case 4 => 10 case 5 => 21 case 6 => 121 case 7 => 43
      case 8 => 78 case 9 => 212 case 10 => 229 case 11 => 172
      case 12 => 115 case 13 => 243 case 14 => 167 case _ => 87)
    case 8 => (match a & 15
      case 0 => 7 case 1 => 112 case 2 => 192 case 3 => 247 case 4 => 140 case 5 => 128 case 6 => 99 case 7 => 13
      case 8 => 103 case 9 => 74 case 10 => 222 case 11 => 237 case 12 => 49 case 13 => 197 case 14 => 254 case _ => 24)
    case 9 => (match a & 15
      case 0 => 227 case 1 => 165 case 2 => 153 case 3 => 119 case 4 => 38 case 5 => 184 case 6 => 180 case 7 => 124
      case 8 => 17 case 9 => 68 case 10 => 146 case 11 => 217 case 12 => 35 case 13 => 32 case 14 => 137 case _ => 46)
    case 10 => (match a & 15
      case 0 => 55 case 1 => 63 case 2 => 209 case 3 => 91 case 4 => 149 case 5 => 188 case 6 => 207 case 7 => 205
      case 8 => 144 case 9 => 135 case 10 => 151 case 11 => 178
      case 12 => 220 case 13 => 252 case 14 => 190 case _ => 97)
    case 11 => (match a & 15
      case 0 => 242 case 1 => 86 case 2 => 211 case 3 => 171 case 4 => 20 case 5 => 42 case 6 => 93 case 7 => 158
      case 8 => 132 case 9 => 60 case 10 => 57 case 11 => 83 case 12 => 71 case 13 => 109 case 14 => 65 case _ => 162)
    case 12 => (match a & 15
      case 0 => 31 case 1 => 45 case 2 => 67 case 3 => 216 case 4 => 183 case 5 => 123 case 6 => 164 case 7 => 118
      case 8 => 196 case 9 => 23 case 10 => 73 case 11 => 236 case 12 => 127 case 13 => 12 case 14 => 111 case _ => 246)
    case 13 => (match a & 15
      case 0 => 108 case 1 => 161 case 2 => 59 case 3 => 82 case 4 => 41 case 5 => 157 case 6 => 85 case 7 => 170
      case 8 => 251 case 9 => 96 case 10 => 134 case 11 => 177 case 12 => 187 case 13 => 204 case 14 => 62 case _ => 90)
    case 14 => (match a & 15
      case 0 => 203 case 1 => 89 case 2 => 95 case 3 => 176 case 4 => 156 case 5 => 169 case 6 => 160 case 7 => 81
      case 8 => 11 case 9 => 245 case 10 => 22 case 11 => 235 case 12 => 122 case 13 => 117 case 14 => 44 case _ => 215)
    case 15 => (match a & 15
      case 0 => 79 case 1 => 174 case 2 => 213 case 3 => 233 case 4 => 230 case 5 => 231 case 6 => 173 case 7 => 232
      case 8 => 116 case 9 => 214 case 10 => 244 case 11 => 234
      case 12 => 168 case 13 => 80 case 14 => 88 case _ => 175)
  }

  // GF2_8_EXP: powers of 2, stored twice so that a sum of two logarithms needs no reduction.
  function Exp(i: bv9): Byte
    requires i < 510
  {
    match i >> 4
    case 0 => (match i & 15
      case 0 => 1 case 1 => 2 case 2 => 4 case 3 => 8 case 4 => 16 case 5 => 32 case 6 => 64 case 7 => 128
      case 8 => 29 case 9 => 58 case 10 => 116 case 11 => 232 case 12 => 205 case 13 => 135 case 14 => 19 case _ => 38)
    case 1 => (match i & 15
      case 0 => 76 case 1 => 152 case 2 => 45 case 3 => 90 case 4 => 180 case 5 => 117 case 6 => 234 case 7 => 201
      case 8 => 143 case 9 => 3 case 10 => 6 case 11 => 12 case 12 => 24 case 13 => 48 case 14 => 96 case _ => 192)
    case 2 => (match i & 15
      case 0 => 157 case 1 => 39 case 2 => 78 case 3 => 156 case 4 => 37 case 5 => 74 case 6 => 148 case 7 => 53
      case 8 => 106 case 9 => 212 case 10 => 181 case 11 => 119
      case 12 => 238 case 13 => 193 case 14 => 159 case _ => 35)
    case 3 => (match i & 15
      case 0 => 70 case 1 => 140 case 2 => 5 case 3 => 10 case 4 => 20 case 5 => 40 case 6 => 80 case 7 => 160
      case 8 => 93 case 9 => 186 case 10 => 105 case 11 => 210
      case 12 => 185 case 13 => 111 case 14 => 222 case _ => 161)
    case 4 => (match i & 15
      case 0 => 95 case 1 => 190 case 2 => 97 case 3 => 194 case 4 => 153 case 5 => 47 case 6 => 94 case 7 => 188
      case 8 => 101 case 9 => 202 case 10 => 137 case 11 => 15 case 12 => 30 case 13 => 60 case 14 => 120 case _ => 240)
    case 5 => (match i & 15
      case 0 => 253 case 1 => 231 case 2 => 211 case 3 => 187 case 4 => 107 case 5 => 214 case 6 => 177 case 7 => 127
      case 8 => 254 case 9 => 225 case 10 => 223 case 11 => 163
      case 12 => 91 case 13 => 182 case 14 => 113 case _ => 226)
    case 6 => (match i & 15
      case 0 => 217 case 1 => 175 case 2 => 67 case 3 => 134 case 4 => 17 case 5 => 34 case 6 => 68 case 7 => 136
      case 8 => 13 case 9 => 26 case 10 => 52 case 11 => 104 case 12 => 208 case 13 => 189 case 14 => 103 case _ => 206)
    case 7 => (match i & 15
      case 0 => 129 case 1 => 31 case 2 => 62 case 3 => 124 case 4 => 248 case 5 => 237 case 6 => 199 case 7 => 147
      case 8 => 59 case 9 => 118 case 10 => 236 case 11 => 197
      case 12 => 151 case 13 => 51 case 14 => 102 case _ => 204)
    case 8 => (match i & 15
      case 0 => 133 case 1 => 23 case 2 => 46 case 3 => 92 case 4 => 184 case 5 => 109 case 6 => 218 case 7 => 169
      case 8 => 79 case 9 => 158 case 10 => 33 case 11 => 66 case 12 => 132 case 13 => 21 case 14 => 42 case _ => 84)
    case 9 => (match i & 15
      case 0 => 168 case 1 => 77 case 2 => 154 case 3 => 41 case 4 => 82 case 5 => 164 case 6 => 85 case 7 => 170
      case 8 => 73 case 9 => 146 case 10 => 57 case 11 => 114
      case 12 => 228 case 13 => 213 case 14 => 183 case _ => 115)
    case 10 => (match i & 15
      case 0 => 230 case 1 => 209 case 2 => 191 case 3 => 99 case 4 => 198 case 5 => 145 case 6 => 63 case 7 => 126
      case 8 => 252 case 9 => 229 case 10 => 215 case 11 => 179
      case 12 => 123 case 13 => 246 case 14 => 241 case _ => 255)
    case 11 => (match i & 15
      case 0 => 227 case 1 => 219 case 2 => 171 case 3 => 75 case 4 => 150 case 5 => 49 case 6 => 98 case 7 => 196
      case 8 => 149 case 9 => 55 case 10 => 110 case 11 => 220 case 12 => 165 case 13 => 87 case 14 => 174 case _ => 65)
    case 12 => (match i & 15
      case 0 => 130 case 1 => 25 case 2 => 50 case 3 => 100 case 4 => 200 case 5 => 141 case 6 => 7 case 7 => 14
      case 8 => 28 case 9 => 56 case 10 => 112 case 11 => 224 case 12 => 221 case 13 => 167 case 14 => 83 case _ => 166)
    case 13 => (match i & 15
      case 0 => 81 case 1 => 162 case 2 => 89 case 3 => 178 case 4 => 121 case 5 => 242 case 6 => 249 case 7 => 239
      case 8 => 195 case 9 => 155 case 10 => 43 case 11 => 86 case 12 => 172 case 13 => 69 case 14 => 138 case _ => 9)
    case 14 => (match i & 15
      case 0 => 18 case 1 => 36 case 2 => 72 case 3 => 144 case 4 => 61 case 5 => 122 case 6 => 244 case 7 => 245
      case 8 => 247 case 9 => 243 case 10 => 251 case 11 => 235
      case 12 => 203 case 13 => 139 case 14 => 11 case _ => 22)
    case 15 => (match i & 15
      case 0 => 44 case 1 => 88 case 2 => 176 case 3 => 125 case 4 => 250 case 5 => 233 case 6 => 207 case 7 => 131
      case 8 => 27 case 9 => 54 case 10 => 108 case 11 => 216 case 12 => 173 case 13 => 71 case 14 => 142 case _ => 1)
    case 16 => (match i & 15
      case 0 => 2 case 1 => 4 case 2 => 8 case 3 => 16 case 4 => 32 case 5 => 64 case 6 => 128 case 7 => 29
      case 8 => 58 case 9 => 116 case 10 => 232 case 11 => 205 case 12 => 135 case 13 => 19 case 14 => 38 case _ => 76)
    case 17 => (match i & 15
      case 0 => 152 case 1 => 45 case 2 => 90 case 3 => 180 case 4 => 117 case 5 => 234 case 6 => 201 case 7 => 143
      case 8 => 3 case 9 => 6 case 10 => 12 case 11 => 24 case 12 => 48 case 13 => 96 case 14 => 192 case _ => 157)
    case 18 => (match i & 15
      case 0 => 39 case 1 => 78 case 2 => 156 case 3 => 37 case 4 => 74 case 5 => 148 case 6 => 53 case 7 => 106
      case 8 => 212 case 9 => 181 case 10 => 119 case 11 => 238
      case 12 => 193 case 13 => 159 case 14 => 35 case _ => 70)
    case 19 => (match i & 15
      case 0 => 140 case 1 => 5 case 2 => 10 case 3 => 20 case 4 => 40 case 5 => 80 case 6 => 160 case 7 => 93
      case 8 => 186 case 9 => 105 case 10 => 210 case 11 => 185
      case 12 => 111 case 13 => 222 case 14 => 161 case _ => 95)
    case 20 => (match i & 15
      case 0 => 190 case 1 => 97 case 2 => 194 case 3 => 153 case 4 => 47 case 5 => 94 case 6 => 188 case 7 => 101
      case 8 => 202 case 9 => 137 case 10 => 15 case 11 => 30 case 12 => 60 case 13 => 120 case 14 => 240 case _ => 253)
    case 21 => (match i & 15
      case 0 => 231 case 1 => 211 case 2 => 187 case 3 => 107 case 4 => 214 case 5 => 177 case 6 => 127 case 7 => 254
      case 8 => 225 case 9 => 223 case 10 => 163 case 11 => 91
      case 12 => 182 case 13 => 113 case 14 => 226 case _ => 217)
    case 22 => (match i & 15
      case 0 => 175 case 1 => 67 case 2 => 134 case 3 => 17 case 4 => 34 case 5 => 68 case 6 => 136 case 7 => 13
      case 8 => 26 case 9 => 52 case 10 => 104 case 11 => 208
      case 12 => 189 case 13 => 103 case 14 => 206 case _ => 129)
    case 23 => (match i & 15
      case 0 => 31 case 1 => 62 case 2 => 124 case 3 => 248 case 4 => 237 case 5 => 199 case 6 => 147 case 7 => 59
      case 8 => 118 case 9 => 236 case 10 => 197 case 11 => 151
      case 12 => 51 case 13 => 102 case 14 => 204 case _ => 133)
    case 24 => (match i & 15
      case 0 => 23 case 1 => 46 case 2 => 92 case 3 => 184 case 4 => 109 case 5 => 218 case 6 => 169 case 7 => 79
      case 8 => 158 case 9 => 33 case 10 => 66 case 11 => 132 case 12 => 21 case 13 => 42 case 14 => 84 case _ => 168)
    case 25 => (match i & 15
      case 0 => 77 case 1 => 154 case 2 => 41 case 3 => 82 case 4 => 164 case 5 => 85 case 6 => 170 case 7 => 73
      case 8 => 146 case 9 => 57 case 10 => 114 case 11 => 228
      case 12 => 213 case 13 => 183 case 14 => 115 case _ => 230)
    case 26 => (match i & 15
      case 0 => 209 case 1 => 191 case 2 => 99 case 3 => 198 case 4 => 145 case 5 => 63 case 6 => 126 case 7 => 252
      case 8 => 229 case 9 => 215 case 10 => 179 case 11 => 123
      case 12 => 246 case 13 => 241 case 14 => 255 case _ => 227)
    case 27 => (match i & 15
      case 0 => 219 case 1 => 171 case 2 => 75 case 3 => 150 case 4 => 49 case 5 => 98 case 6 => 196 case 7 => 149
      case 8 => 55 case 9 => 110 case 10 => 220 case 11 => 165 case 12 => 87 case 13 => 174 case 14 => 65 case _ => 130)
    case 28 => (match i & 15
      case 0 => 25 case 1 => 50 case 2 => 100 case 3 => 200 case 4 => 141 case 5 => 7 case 6 => 14 case 7 => 28
      case 8 => 56 case 9 => 112 case 10 => 224 case 11 => 221 case 12 => 167 case 13 => 83 case 14 => 166 case _ => 81)
    case 29 => (match i & 15
      case 0 => 162 case 1 => 89 case 2 => 178 case 3 => 121 case 4 => 242 case 5 => 249 case 6 => 239 case 7 => 195
      case 8 => 155 case 9 => 43 case 10 => 86 case 11 => 172 case 12 => 69 case 13 => 138 case 14 => 9 case _ => 18)
    case 30 => (match i & 15
      case 0 => 36 case 1 => 72 case 2 => 144 case 3 => 61 case 4 => 122 case 5 => 244 case 6 => 245 case 7 => 247
      case 8 => 243 case 9 => 251 case 10 => 235 case 11 => 203 case 12 => 139 case 13 => 11 case 14 => 22 case _ => 44)
    case _ => (match i & 15
      case 0 => 88 case 1 => 176 case 2 => 125 case 3 => 250 case 4 => 233 case 5 => 207 case 6 => 131 case 7 => 27
      case 8 => 54 case 9 => 108 case 10 => 216 case 11 => 173 case 12 => 71 case _ => 142)
  }

  // GF2_8_INV: the multiplicative inverse; the entry for 0 is 0.
  function Inv(a: Byte): Byte {
    match a >> 4
    case 0 => (match a & 15
      case 0 => 0 case 1 => 1 case 2 => 142 case 3 => 244 case 4 => 71 case 5 => 167 case 6 => 122 case 7 => 186
      case 8 => 173 case 9 => 157 case 10 => 221 case 11 => 152
      case 12 => 61 case 13 => 170 case 14 => 93 case _ => 150)
    case 1 => (match a & 15
      case 0 => 216 case 1 => 114 case 2 => 192 case 3 => 88 case 4 => 224 case 5 => 62 case 6 => 76 case 7 => 102
      case 8 => 144 case 9 => 222 case 10 => 85 case 11 => 128 case 12 => 160 case 13 => 131 case 14 => 75 case _ => 42)
    case 2 => (match a & 15
      case 0 => 108 case 1 => 237 case 2 => 57 case 3 => 81 case 4 => 96 case 5 => 86 case 6 => 44 case 7 => 138
      case 8 => 112 case 9 => 208 case 10 => 31 case 11 => 74 case 12 => 38 case 13 => 139 case 14 => 51 case _ => 110)
    case 3 => (match a & 15
      case 0 => 72 case 1 => 137 case 2 => 111 case 3 => 46 case 4 => 164 case 5 => 195 case 6 => 64 case 7 => 94
      case 8 => 80 case 9 => 34 case 10 => 207 case 11 => 169 case 12 => 171 case 13 => 12 case 14 => 21 case _ => 225)
    case 4 => (match a & 15
      case 0 => 54 case 1 => 95 case 2 => 248 case 3 => 213 case 4 => 146 case 5 => 78 case 6 => 166 case 7 => 4
      case 8 => 48 case 9 => 136 case 10 => 43 case 11 => 30 case 12 => 22 case 13 => 103 case 14 => 69 case _ => 147)
    case 5 => (match a & 15
      case 0 => 56 case 1 => 35 case 2 => 104 case 3 => 140 case 4 => 129 case 5 => 26 case 6 => 37 case 7 => 97
      case 8 => 19 case 9 => 193 case 10 => 203 case 11 => 99 case 12 => 151 case 13 => 14 case 14 => 55 case _ => 65)
    case 6 => (match a & 15
      case 0 => 36 case 1 => 87 case 2 => 202 case 3 => 91 case 4 => 185 case 5 => 196 case 6 => 23 case 7 => 77
      case 8 => 82 case 9 => 141 case 10 => 239 case 11 => 179 case 12 => 32 case 13 => 236 case 14 => 47 case _ => 50)
    case 7 => (match a & 15
      case 0 => 40 case 1 => 209 case 2 => 17 case 3 => 217 case 4 => 233 case 5 => 251 case 6 => 218 case 7 => 121
      case 8 => 219 case 9 => 119 case 10 => 6 case 11 => 187
      case 12 => 132 case 13 => 205 case 14 => 254 case _ => 252)
    case 8 => (match a & 15
      case 0 => 27 case 1 => 84 case 2 => 161 case 3 => 29 case 4 => 124 case 5 => 204 case 6 => 228 case 7 => 176
      case 8 => 73 case 9 => 49 case 10 => 39 case 11 => 45 case 12 => 83 case 13 => 105 case 14 => 2 case _ => 245)
    case 9 => (match a & 15
      case 0 => 24 case 1 => 223 case 2 => 68 case 3 => 79 case 4 => 155 case 5 => 188 case 6 => 15 case 7 => 92
      case 8 => 11 case 9 => 220 case 10 => 189 case 11 => 148 case 12 => 172 case 13 => 9 case 14 => 199 case _ => 162)
    case 10 => (match a & 15
      case 0 => 28 case 1 => 130 case 2 => 159 case 3 => 198 case 4 => 52 case 5 => 194 case 6 => 70 case 7 => 5
      case 8 => 206 case 9 => 59 case 10 => 13 case 11 => 60 case 12 => 156 case 13 => 8 case 14 => 190 case _ => 183)
    case 11 => (match a & 15
      case 0 => 135 case 1 => 229 case 2 => 238 case 3 => 107 case 4 => 235 case 5 => 242 case 6 => 191 case 7 => 175
      case 8 => 197 case 9 => 100 case 10 => 7 case 11 => 123
      case 12 => 149 case 13 => 154 case 14 => 174 case _ => 182)
    case 12 => (match a & 15
      case 0 => 18 case 1 => 89 case 2 => 165 case 3 => 53 case 4 => 101 case 5 => 184 case 6 => 163 case 7 => 158
      case 8 => 210 case 9 => 247 case 10 => 98 case 11 => 90 case 12 => 133 case 13 => 125 case 14 => 168 case _ => 58)
    case 13 => (match a & 15
      case 0 => 41 case 1 => 113 case 2 => 200 case 3 => 246 case 4 => 249 case 5 => 67 case 6 => 215 case 7 => 214
      case 8 => 16 case 9 => 115 case 10 => 118 case 11 => 120 case 12 => 153 case 13 => 10 case 14 => 25 case _ => 145)
    case 14 => (match a & 15
      case 0 => 20 case 1 => 63 case 2 => 230 case 3 => 240 case 4 => 134 case 5 => 177 case 6 => 226 case 7 => 241
      case 8 => 250 case 9 => 116 case 10 => 243 case 11 => 180
      case 12 => 109 case 13 => 33 case 14 => 178 case _ => 106)
    case 15 => (match a & 15
      case 0 => 227 case 1 => 231 case 2 => 181 case 3 => 234 case 4 => 3 case 5 => 143 case 6 => 211 case 7 => 201
      case 8 => 66 case 9 => 212 case 10 => 232 case 11 => 117
      case 12 => 127 case 13 => 255 case 14 => 126 case _ => 253)
  }

  // GF2_8_SHUF_LO, one 16-byte row for each coefficient; entry 0 is the least significant byte.
  function ShufLoRow(u: Byte): bv128 {
    match u >> 4
    case 0 => (match u & 15
      case 0 => 0x00000000000000000000000000000000 case 1 => 0x0F0E0D0C0B0A09080706050403020100
      case 2 => 0x1E1C1A18161412100E0C0A0806040200 case 3 => 0x111217141D1E1B18090A0F0C05060300
      case 4 => 0x3C3834302C2824201C1814100C080400 case 5 => 0x3336393C27222D281B1E11140F0A0500
      case 6 => 0x22242E283A3C363012141E180A0C0600 case 7 => 0x2D2A232431363F3815121B1C090E0700
      case 8 => 0x78706860585048403830282018100800 case 9 => 0x777E656C535A41483F362D241B120900
      case 10 => 0x666C72784E445A50363C22281E140A00 case 11 => 0x69627F74454E5358313A272C1D160B00
      case 12 => 0x44485C5074786C6024283C3014180C00 case 13 => 0x4B46515C7F726568232E3934171A0D00
      case 14 => 0x5A544648626C7E702A243638121C0E00 case _ => 0x555A4B44696677782D22333C111E0F00)
    case 1 => (match u & 15
      case 0 => 0xF0E0D0C0B0A090807060504030201000 case 1 => 0xFFEEDDCCBBAA99887766554433221100
      case 2 => 0xEEFCCAD8A6B482907E6C5A4836241200 case 3 => 0xE1F2C7D4ADBE8B98796A5F4C35261300
      case 4 => 0xCCD8E4F09C88B4A06C7844503C281400 case 5 => 0xC3D6E9FC9782BDA86B7E41543F2A1500
      case 6 => 0xD2C4FEE88A9CA6B062744E583A2C1600 case 7 => 0xDDCAF3E48196AFB865724B5C392E1700
      case 8 => 0x8890B8A0E8F0D8C04850786028301800 case 9 => 0x879EB5ACE3FAD1C84F567D642B321900
      case 10 => 0x968CA2B8FEE4CAD0465C72682E341A00 case 11 => 0x9982AFB4F5EEC3D8415A776C2D361B00
      case 12 => 0xB4A88C90C4D8FCE054486C7024381C00 case 13 => 0xBBA6819CCFD2F5E8534E6974273A1D00
      case 14 => 0xAAB49688D2CCEEF05A446678223C1E00 case _ => 0xA5BA9B84D9C6E7F85D42637C213E1F00)
    case 2 => (match u & 15
      case 0 => 0xFDDDBD9D7D5D3D1DE0C0A08060402000 case 1 => 0xF2D3B09176573415E7C6A58463422100
      case 2 => 0xE3C1A7856B492F0DEECCAA8866442200 case 3 => 0xECCFAA8960432605E9CAAF8C65462300
      case 4 => 0xC1E589AD5175193DFCD8B4906C482400 case 5 => 0xCEEB84A15A7F1035FBDEB1946F4A2500
      case 6 => 0xDFF993B547610B2DF2D4BE986A4C2600 case 7 => 0xD0F79EB94C6B0225F5D2BB9C694E2700
      case 8 => 0x85ADD5FD250D755DD8F088A078502800 case 9 => 0x8AA3D8F12E077C55DFF68DA47B522900
      case 10 => 0x9BB1CFE53319674DD6FC82A87E542A00 case 11 => 0x94BFC2E938136E45D1FA87AC7D562B00
      case 12 => 0xB995E1CD0925517DC4E89CB074582C00 case 13 => 0xB69BECC1022F5875C3EE99B4775A2D00
      case 14 => 0xA789FBD51F31436DCAE496B8725C2E00 case _ => 0xA887F6D9143B4A65CDE293BC715E2F00)
    case 3 => (match u & 15
      case 0 => 0x0D3D6D5DCDFDAD9D90A0F0C050603000 case 1 => 0x02336051C6F7A49597A6F5C453623100
      case 2 => 0x13217745DBE9BF8D9EACFAC856643200 case 3 => 0x1C2F7A49D0E3B68599AAFFCC55663300
      case 4 => 0x3105596DE1D589BD8CB8E4D05C683400 case 5 => 0x3E0B5461EADF80B58BBEE1D45F6A3500
      case 6 => 0x2F194375F7C19BAD82B4EED85A6C3600 case 7 => 0x20174E79FCCB92A585B2EBDC596E3700
      case 8 => 0x754D053D95ADE5DDA890D8E048703800 case 9 => 0x7A4308319EA7ECD5AF96DDE44B723900
      case 10 => 0x6B511F2583B9F7CDA69CD2E84E743A00 case 11 => 0x645F122988B3FEC5A19AD7EC4D763B00
      case 12 => 0x4975310DB985C1FDB488CCF044783C00 case 13 => 0x467B3C01B28FC8F5B38EC9F4477A3D00
      case 14 => 0x57692B15AF91D3EDBA84C6F8427C3E00 case _ => 0x58672619A49BDAE5BD82C3FC417E3F00)
    case 4 => (match u & 15
      case 0 => 0xE7A76727FABA7A3ADD9D5D1DC0804000 case 1 => 0xE8A96A2BF1B07332DA9B5819C3824100
      case 2 => 0xF9BB7D3FECAE682AD3915715C6844200 case 3 => 0xF6B57033E7A46122D4975211C5864300
      case 4 => 0xDB9F5317D6925E1AC185490DCC884400 case 5 => 0xD4915E1BDD985712C6834C09CF8A4500
      case 6 => 0xC583490FC0864C0ACF894305CA8C4600 case 7 => 0xCA8D4403CB8C4502C88F4601C98E4700
      case 8 => 0x9FD70F47A2EA327AE5AD753DD8904800 case 9 => 0x90D9024BA9E03B72E2AB7039DB924900
      case 10 => 0x81CB155FB4FE206AEBA17F35DE944A00 case 11 => 0x8EC51853BFF42962ECA77A31DD964B00
      case 12 => 0xA3EF3B778EC2165AF9B5612DD4984C00 case 13 => 0xACE1367B85C81F52FEB36429D79A4D00
      case 14 => 0xBDF3216F98D6044AF7B96B25D29C4E00 case _ => 0xB2FD2C6393DC0D42F0BF6E21D19E4F00)
    case 5 => (match u & 15
      case 0 => 0x1747B7E74A1AEABAADFD0D5DF0A05000 case 1 => 0x1849BAEB4110E3B2AAFB0859F3A25100
      case 2 => 0x095BADFF5C0EF8AAA3F10755F6A45200 case 3 => 0x0655A0F35704F1A2A4F70251F5A65300
      case 4 => 0x2B7F83D76632CE9AB1E5194DFCA85400 case 5 => 0x24718EDB6D38C792B6E31C49FFAA5500
      case 6 => 0x356399CF7026DC8ABFE91345FAAC5600 case 7 => 0x3A6D94C37B2CD582B8EF1641F9AE5700
      case 8 => 0x6F37DF87124AA2FA95CD257DE8B05800 case 9 => 0x6039D28B1940ABF292CB2079EBB25900
      case 10 => 0x712BC59F045EB0EA9BC12F75EEB45A00 case 11 => 0x7E25C8930F54B9E29CC72A71EDB65B00
      case 12 => 0x530FEBB73E6286DA89D5316DE4B85C00 case 13 => 0x5C01E6BB35688FD28ED33469E7BA5D00
      case 14 => 0x4D13F1AF287694CA87D93B65E2BC5E00 case _ => 0x421DFCA3237C9DC280DF3E61E1BE5F00)
    case 6 => (match u & 15
      case 0 => 0x1A7ADABA87E747273D5DFD9DA0C06000 case 1 => 0x1574D7B68CED4E2F3A5BF899A3C26100
      case 2 => 0x0466C0A291F355373351F795A6C46200 case 3 => 0x0B68CDAE9AF95C3F3457F291A5C66300
      case 4 => 0x2642EE8AABCF63072145E98DACC86400 case 5 => 0x294CE386A0C56A0F2643EC89AFCA6500
      case 6 => 0x385EF492BDDB71172F49E385AACC6600 case 7 => 0x3750F99EB6D1781F284FE681A9CE6700
      case 8 => 0x620AB2DADFB70F67056DD5BDB8D06800 case 9 => 0x6D04BFD6D4BD066F026BD0B9BBD26900
      case 10 => 0x7C16A8C2C9A31D770B61DFB5BED46A00 case 11 => 0x7318A5CEC2A9147F0C67DAB1BDD66B00
      case 12 => 0x5E3286EAF39F2B471975C1ADB4D86C00 case 13 => 0x513C8BE6F895224F1E73C4A9B7DA6D00
      case 14 => 0x402E9CF2E58B39571779CBA5B2DC6E00 case _ => 0x4F2091FEEE81305F107FCEA1B1DE6F00)
    case 7 => (match u & 15
      case 0 => 0xEA9A0A7A3747D7A74D3DADDD90E07000 case 1 => 0xE59407763C4DDEAF4A3BA8D993E27100
      case 2 => 0xF48610622153C5B74331A7D596E47200 case 3 => 0xFB881D6E2A59CCBF4437A2D195E67300
      case 4 => 0xD6A23E4A1B6FF3875125B9CD9CE87400 case 5 => 0xD9AC33461065FA8F5623BCC99FEA7500
      case 6 => 0xC8BE24520D7BE1975F29B3C59AEC7600 case 7 => 0xC7B0295E0671E89F582FB6C199EE7700
      case 8 => 0x92EA621A6F179FE7750D85FD88F07800 case 9 => 0x9DE46F16641D96EF720B80F98BF27900
      case 10 => 0x8CF6780279038DF77B018FF58EF47A00 case 11 => 0x83F8750E720984FF7C078AF18DF67B00
      case 12 => 0xAED2562A433FBBC7691591ED84F87C00 case 13 => 0xA1DC5B264835B2CF6E1394E987FA7D00
      case 14 => 0xB0CE4C32552BA9D767199BE582FC7E00 case _ => 0xBFC0413E5E21A0DF601F9EE181FE7F00)
    case 8 => (match u & 15
      case 0 => 0xD353CE4EE969F474A727BA3A9D1D8000 case 1 => 0xDC5DC342E263FD7CA021BF3E9E1F8100
      case 2 => 0xCD4FD456FF7DE664A92BB0329B198200 case 3 => 0xC241D95AF477EF6CAE2DB536981B8300
      case 4 => 0xEF6BFA7EC541D054BB3FAE2A91158400 case 5 => 0xE065F772CE4BD95CBC39AB2E92178500
      case 6 => 0xF177E066D355C244B533A42297118600 case 7 => 0xFE79ED6AD85FCB4CB235A12694138700
      case 8 => 0xAB23A62EB139BC349F17921A850D8800 case 9 => 0xA42DAB22BA33B53C9811971E860F8900
      case 10 => 0xB53FBC36A72DAE24911B981283098A00 case 11 => 0xBA31B13AAC27A72C961D9D16800B8B00
      case 12 => 0x971B921E9D119814830F860A89058C00 case 13 => 0x98159F12961B911C8409830E8A078D00
      case 14 => 0x890788068B058A048D038C028F018E00 case _ => 0x8609850A800F830C8A0589068C038F00)
    case 9 => (match u & 15
      case 0 => 0x23B31E8E59C964F4D747EA7AAD3D9000 case 1 => 0x2CBD138252C36DFCD041EF7EAE3F9100
      case 2 => 0x3DAF04964FDD76E4D94BE072AB399200 case 3 => 0x32A1099A44D77FECDE4DE576A83B9300
      case 4 => 0x1F8B2ABE75E140D4CB5FFE6AA1359400 case 5 => 0x108527B27EEB49DCCC59FB6EA2379500
      case 6 => 0x019730A663F552C4C553F462A7319600 case 7 => 0x0E993DAA68FF5BCCC255F166A4339700
      case 8 => 0x5BC376EE01992CB4EF77C25AB52D9800 case 9 => 0x54CD7BE20A9325BCE871C75EB62F9900
      case 10 => 0x45DF6CF6178D3EA4E17BC852B3299A00 case 11 => 0x4AD161FA1C8737ACE67DCD56B02B9B00
      case 12 => 0x67FB42DE2DB10894F36FD64AB9259C00 case 13 => 0x68F54FD226BB019CF469D34EBA279D00
      case 14 => 0x79E758C63BA51A84FD63DC42BF219E00 case _ => 0x76E955CA30AF138CFA65D946BC239F00)
    case 10 => (match u & 15
      case 0 => 0x2E8E73D39434C96947E71ABAFD5DA000 case 1 => 0x21807EDF9F3EC06140E11FBEFE5FA100
      case 2 => 0x309269CB8220DB7949EB10B2FB59A200 case 3 => 0x3F9C64C7892AD2714EED15B6F85BA300
      case 4 => 0x12B647E3B81CED495BFF0EAAF155A400 case 5 => 0x1DB84AEFB316E4415CF90BAEF257A500
      case 6 => 0x0CAA5DFBAE08FF5955F304A2F751A600 case 7 => 0x03A450F7A502F65152F501A6F453A700
      case 8 => 0x56FE1BB3CC6481297FD7329AE54DA800 case 9 => 0x59F016BFC76E882178D1379EE64FA900
      case 10 => 0x48E201ABDA70933971DB3892E349AA00 case 11 => 0x47EC0CA7D17A9A3176DD3D96E04BAB00
      case 12 => 0x6AC62F83E04CA50963CF268AE945AC00 case 13 => 0x65C8228FEB46AC0164C9238EEA47AD00
      case 14 => 0x74DA359BF658B7196DC32C82EF41AE00 case _ => 0x7BD43897FD52BE116AC52986EC43AF00)
    case 11 => (match u & 15
      case 0 => 0xDE6EA313249459E937874AFACD7DB000 case 1 => 0xD160AE1F2F9E50E130814FFECE7FB100
      case 2 => 0xC072B90B32804BF9398B40F2CB79B200 case 3 => 0xCF7CB407398A42F13E8D45F6C87BB300
      case 4 => 0xE256972308BC7DC92B9F5EEAC175B400 case 5 => 0xED589A2F03B674C12C995BEEC277B500
      case 6 => 0xFC4A8D3B1EA86FD9259354E2C771B600 case 7 => 0xF344803715A266D1229551E6C473B700
      case 8 => 0xA61ECB737CC411A90FB762DAD56DB800 case 9 => 0xA910C67F77CE18A108B167DED66FB900
      case 10 => 0xB802D16B6AD003B901BB68D2D369BA00 case 11 => 0xB70CDC6761DA0AB106BD6DD6D06BBB00
      case 12 => 0x9A26FF4350EC358913AF76CAD965BC00 case 13 => 0x9528F24F5BE63C8114A973CEDA67BD00
      case 14 => 0x843AE55B46F827991DA37CC2DF61BE00 case _ => 0x8B34E8574DF22E911AA579C6DC63BF00)
    case 12 => (match u & 15
      case 0 => 0x34F4A96913D38E4E7ABAE7275D9DC000 case 1 => 0x3BFAA46518D987467DBCE2235E9FC100
      case 2 => 0x2AE8B37105C79C5E74B6ED2F5B99C200 case 3 => 0x25E6BE7D0ECD955673B0E82B589BC300
      case 4 => 0x08CC9D593FFBAA6E66A2F3375195C400 case 5 => 0x07C2905534F1A36661A4F6335297C500
      case 6 => 0x16D0874129EFB87E68AEF93F5791C600 case 7 => 0x19DE8A4D22E5B1766FA8FC3B5493C700
      case 8 => 0x4C84C1094B83C60E428ACF07458DC800 case 9 => 0x438ACC054089CF06458CCA03468FC900
      case 10 => 0x5298DB115D97D41E4C86C50F4389CA00 case 11 => 0x5D96D61D569DDD164B80C00B408BCB00
      case 12 => 0x70BCF53967ABE22E5E92DB174985CC00 case 13 => 0x7FB2F8356CA1EB265994DE134A87CD00
      case 14 => 0x6EA0EF2171BFF03E509ED11F4F81CE00 case _ => 0x61AEE22D7AB5F9365798D41B4C83CF00)
    case 13 => (match u & 15
      case 0 => 0xC41479A9A3731ECE0ADAB7676DBDD000 case 1 => 0xCB1A74A5A87917C60DDCB2636EBFD100
      case 2 => 0xDA0863B1B5670CDE04D6BD6F6BB9D200 case 3 => 0xD5066EBDBE6D05D603D0B86B68BBD300
      case 4 => 0xF82C4D998F5B3AEE16C2A37761B5D400 case 5 => 0xF7224095845133E611C4A67362B7D500
      case 6 => 0xE6305781994F28FE18CEA97F67B1D600 case 7 => 0xE93E5A8D924521F61FC8AC7B64B3D700
      case 8 => 0xBC6411C9FB23568E32EA9F4775ADD800 case 9 => 0xB36A1CC5F0295F8635EC9A4376AFD900
      case 10 => 0xA2780BD1ED37449E3CE6954F73A9DA00 case 11 => 0xAD7606DDE63D4D963BE0904B70ABDB00
      case 12 => 0x805C25F9D70B72AE2EF28B5779A5DC00 case 13 => 0x8F5228F5DC017BA629F48E537AA7DD00
      case 14 => 0x9E403FE1C11F60BE20FE815F7FA1DE00 case _ => 0x914E32EDCA1569B627F8845B7CA3DF00)
    case 14 => (match u & 15
      case 0 => 0xC92914F46E8EB3539A7A47A73DDDE000 case 1 => 0xC62719F86584BA5B9D7C42A33EDFE100
      case 2 => 0xD7350EEC789AA14394764DAF3BD9E200 case 3 => 0xD83B03E07390A84B937048AB38DBE300
      case 4 => 0xF51120C442A69773866253B731D5E400 case 5 => 0xFA1F2DC849AC9E7B816456B332D7E500
      case 6 => 0xEB0D3ADC54B28563886E59BF37D1E600 case 7 => 0xE40337D05FB88C6B8F685CBB34D3E700
      case 8 => 0xB1597C9436DEFB13A24A6F8725CDE800 case 9 => 0xBE5771983DD4F21BA54C6A8326CFE900
      case 10 => 0xAF45668C20CAE903AC46658F23C9EA00 case 11 => 0xA04B6B802BC0E00BAB40608B20CBEB00
      case 12 => 0x8D6148A41AF6DF33BE527B9729C5EC00 case 13 => 0x826F45A811FCD63BB9547E932AC7ED00
      case 14 => 0x937D52BC0CE2CD23B05E719F2FC1EE00 case _ => 0x9C735FB007E8C42BB758749B2CC3EF00)
    case 15 => (match u & 15
      case 0 => 0x39C9C434DE2E23D3EA1A17E70DFDF000 case 1 => 0x36C7C938D5242ADBED1C12E30EFFF100
      case 2 => 0x27D5DE2CC83A31C3E4161DEF0BF9F200 case 3 => 0x28DBD320C33038CBE31018EB08FBF300
      case 4 => 0x05F1F004F20607F3F60203F701F5F400 case 5 => 0x0AFFFD08F90C0EFBF10406F302F7F500
      case 6 => 0x1BEDEA1CE41215E3F80E09FF07F1F600 case 7 => 0x14E3E710EF181CEBFF080CFB04F3F700
      case 8 => 0x41B9AC54867E6B93D22A3FC715EDF800 case 9 => 0x4EB7A1588D74629BD52C3AC316EFF900
      case 10 => 0x5FA5B64C906A7983DC2635CF13E9FA00 case 11 => 0x50ABBB409B60708BDB2030CB10EBFB00
      case 12 => 0x7D819864AA564FB3CE322BD719E5FC00 case 13 => 0x728F9568A15C46BBC9342ED31AE7FD00
      case 14 => 0x639D827CBC425DA3C03E21DF1FE1FE00 case _ => 0x6C938F70B74854ABC73824DB1CE3FF00)
  }

  // GF2_8_SHUF_HI, one 16-byte row for each coefficient; entry 0 is the least significant byte.
  function ShufHiRow(u: Byte): bv128 {
    match u >> 4
    case 0 => (match u & 15
      case 0 => 0x00000000000000000000000000000000 case 1 => 0xF0E0D0C0B0A090807060504030201000
      case 2 => 0xFDDDBD9D7D5D3D1DE0C0A08060402000 case 3 => 0x0D3D6D5DCDFDAD9D90A0F0C050603000
      case 4 => 0xE7A76727FABA7A3ADD9D5D1DC0804000 case 5 => 0x1747B7E74A1AEABAADFD0D5DF0A05000
      case 6 => 0x1A7ADABA87E747273D5DFD9DA0C06000 case 7 => 0xEA9A0A7A3747D7A74D3DADDD90E07000
      case 8 => 0xD353CE4EE969F474A727BA3A9D1D8000 case 9 => 0x23B31E8E59C964F4D747EA7AAD3D9000
      case 10 => 0x2E8E73D39434C96947E71ABAFD5DA000 case 11 => 0xDE6EA313249459E937874AFACD7DB000
      case 12 => 0x34F4A96913D38E4E7ABAE7275D9DC000 case 13 => 0xC41479A9A3731ECE0ADAB7676DBDD000
      case 14 => 0xC92914F46E8EB3539A7A47A73DDDE000 case _ => 0x39C9C434DE2E23D3EA1A17E70DFDF000)
    case 1 => (match u & 15
      case 0 => 0xBBA6819CCFD2F5E8534E6974273A1D00 case 1 => 0x4B46515C7F726568232E3934171A0D00
      case 2 => 0x467B3C01B28FC8F5B38EC9F4477A3D00 case 3 => 0xB69BECC1022F5875C3EE99B4775A2D00
      case 4 => 0x5C01E6BB35688FD28ED33469E7BA5D00 case 5 => 0xACE1367B85C81F52FEB36429D79A4D00
      case 6 => 0xA1DC5B264835B2CF6E1394E987FA7D00 case 7 => 0x513C8BE6F895224F1E73C4A9B7DA6D00
      case 8 => 0x68F54FD226BB019CF469D34EBA279D00 case 9 => 0x98159F12961B911C8409830E8A078D00
      case 10 => 0x9528F24F5BE63C8114A973CEDA67BD00 case 11 => 0x65C8228FEB46AC0164C9238EEA47AD00
      case 12 => 0x8F5228F5DC017BA629F48E537AA7DD00 case 13 => 0x7FB2F8356CA1EB265994DE134A87CD00
      case 14 => 0x728F9568A15C46BBC9342ED31AE7FD00 case _ => 0x826F45A811FCD63BB9547E932AC7ED00)
    case 2 => (match u & 15
      case 0 => 0x6B511F2583B9F7CDA69CD2E84E743A00 case 1 => 0x9BB1CFE53319674DD6FC82A87E542A00
      case 2 => 0x968CA2B8FEE4CAD0465C72682E341A00 case 3 => 0x666C72784E445A50363C22281E140A00
      case 4 => 0x8CF6780279038DF77B018FF58EF47A00 case 5 => 0x7C16A8C2C9A31D770B61DFB5BED46A00
      case 6 => 0x712BC59F045EB0EA9BC12F75EEB45A00 case 7 => 0x81CB155FB4FE206AEBA17F35DE944A00
      case 8 => 0xB802D16B6AD003B901BB68D2D369BA00 case 9 => 0x48E201ABDA70933971DB3892E349AA00
      case 10 => 0x45DF6CF6178D3EA4E17BC852B3299A00 case 11 => 0xB53FBC36A72DAE24911B981283098A00
      case 12 => 0x5FA5B64C906A7983DC2635CF13E9FA00 case 13 => 0xAF45668C20CAE903AC46658F23C9EA00
      case 14 => 0xA2780BD1ED37449E3CE6954F73A9DA00 case _ => 0x5298DB115D97D41E4C86C50F4389CA00)
    case 3 => (match u & 15
      case 0 => 0xD0F79EB94C6B0225F5D2BB9C694E2700 case 1 => 0x20174E79FCCB92A585B2EBDC596E3700
      case 2 => 0x2D2A232431363F3815121B1C090E0700 case 3 => 0xDDCAF3E48196AFB865724B5C392E1700
      case 4 => 0x3750F99EB6D1781F284FE681A9CE6700 case 5 => 0xC7B0295E0671E89F582FB6C199EE7700
      case 6 => 0xCA8D4403CB8C4502C88F4601C98E4700 case 7 => 0x3A6D94C37B2CD582B8EF1641F9AE5700
      case 8 => 0x03A450F7A502F65152F501A6F453A700 case 9 => 0xF344803715A266D1229551E6C473B700
      case 10 => 0xFE79ED6AD85FCB4CB235A12694138700 case 11 => 0x0E993DAA68FF5BCCC255F166A4339700
      case 12 => 0xE40337D05FB88C6B8F685CBB34D3E700 case 13 => 0x14E3E710EF181CEBFF080CFB04F3F700
      case 14 => 0x19DE8A4D22E5B1766FA8FC3B5493C700 case _ => 0xE93E5A8D924521F61FC8AC7B64B3D700)
    case 4 => (match u & 15
      case 0 => 0xD6A23E4A1B6FF3875125B9CD9CE87400 case 1 => 0x2642EE8AABCF63072145E98DACC86400
      case 2 => 0x2B7F83D76632CE9AB1E5194DFCA85400 case 3 => 0xDB9F5317D6925E1AC185490DCC884400
      case 4 => 0x3105596DE1D589BD8CB8E4D05C683400 case 5 => 0xC1E589AD5175193DFCD8B4906C482400
      case 6 => 0xCCD8E4F09C88B4A06C7844503C281400 case 7 => 0x3C3834302C2824201C1814100C080400
      case 8 => 0x05F1F004F20607F3F60203F701F5F400 case 9 => 0xF51120C442A69773866253B731D5E400
      case 10 => 0xF82C4D998F5B3AEE16C2A37761B5D400 case 11 => 0x08CC9D593FFBAA6E66A2F3375195C400
      case 12 => 0xE256972308BC7DC92B9F5EEAC175B400 case 13 => 0x12B647E3B81CED495BFF0EAAF155A400
      case 14 => 0x1F8B2ABE75E140D4CB5FFE6AA1359400 case _ => 0xEF6BFA7EC541D054BB3FAE2A91158400)
    case 5 => (match u & 15
      case 0 => 0x6D04BFD6D4BD066F026BD0B9BBD26900 case 1 => 0x9DE46F16641D96EF720B80F98BF27900
      case 2 => 0x90D9024BA9E03B72E2AB7039DB924900 case 3 => 0x6039D28B1940ABF292CB2079EBB25900
      case 4 => 0x8AA3D8F12E077C55DFF68DA47B522900 case 5 => 0x7A4308319EA7ECD5AF96DDE44B723900
      case 6 => 0x777E656C535A41483F362D241B120900 case 7 => 0x879EB5ACE3FAD1C84F567D642B321900
      case 8 => 0xBE5771983DD4F21BA54C6A8326CFE900 case 9 => 0x4EB7A1588D74629BD52C3AC316EFF900
      case 10 => 0x438ACC054089CF06458CCA03468FC900 case 11 => 0xB36A1CC5F0295F8635EC9A4376AFD900
      case 12 => 0x59F016BFC76E882178D1379EE64FA900 case 13 => 0xA910C67F77CE18A108B167DED66FB900
      case 14 => 0xA42DAB22BA33B53C9811971E860F8900 case _ => 0x54CD7BE20A9325BCE871C75EB62F9900)
    case 6 => (match u & 15
      case 0 => 0xBDF3216F98D6044AF7B96B25D29C4E00 case 1 => 0x4D13F1AF287694CA87D93B65E2BC5E00
      case 2 => 0x402E9CF2E58B39571779CBA5B2DC6E00 case 3 => 0xB0CE4C32552BA9D767199BE582FC7E00
      case 4 => 0x5A544648626C7E702A243638121C0E00 case 5 => 0xAAB49688D2CCEEF05A446678223C1E00
      case 6 => 0xA789FBD51F31436DCAE496B8725C2E00 case 7 => 0x57692B15AF91D3EDBA84C6F8427C3E00
      case 8 => 0x6EA0EF2171BFF03E509ED11F4F81CE00 case 9 => 0x9E403FE1C11F60BE20FE815F7FA1DE00
      case 10 => 0x937D52BC0CE2CD23B05E719F2FC1EE00 case 11 => 0x639D827CBC425DA3C03E21DF1FE1FE00
      case 12 => 0x890788068B058A048D038C028F018E00 case 13 => 0x79E758C63BA51A84FD63DC42BF219E00
      case 14 => 0x74DA359BF658B7196DC32C82EF41AE00 case _ => 0x843AE55B46F827991DA37CC2DF61BE00)
    case 7 => (match u & 15
      case 0 => 0x0655A0F35704F1A2A4F70251F5A65300 case 1 => 0xF6B57033E7A46122D4975211C5864300
      case 2 => 0xFB881D6E2A59CCBF4437A2D195E67300 case 3 => 0x0B68CDAE9AF95C3F3457F291A5C66300
      case 4 => 0xE1F2C7D4ADBE8B98796A5F4C35261300 case 5 => 0x111217141D1E1B18090A0F0C05060300
      case 6 => 0x1C2F7A49D0E3B68599AAFFCC55663300 case 7 => 0xECCFAA8960432605E9CAAF8C65462300
      case 8 => 0xD5066EBDBE6D05D603D0B86B68BBD300 case 9 => 0x25E6BE7D0ECD955673B0E82B589BC300
      case 10 => 0x28DBD320C33038CBE31018EB08FBF300 case 11 => 0xD83B03E07390A84B937048AB38DBE300
      case 12 => 0x32A1099A44D77FECDE4DE576A83B9300 case 13 => 0xC241D95AF477EF6CAE2DB536981B8300
      case 14 => 0xCF7CB407398A42F13E8D45F6C87BB300 case _ => 0x3F9C64C7892AD2714EED15B6F85BA300)
    case 8 => (match u & 15
      case 0 => 0xB1597C9436DEFB13A24A6F8725CDE800 case 1 => 0x41B9AC54867E6B93D22A3FC715EDF800
      case 2 => 0x4C84C1094B83C60E428ACF07458DC800 case 3 => 0xBC6411C9FB23568E32EA9F4775ADD800
      case 4 => 0x56FE1BB3CC6481297FD7329AE54DA800 case 5 => 0xA61ECB737CC411A90FB762DAD56DB800
      case 6 => 0xAB23A62EB139BC349F17921A850D8800 case 7 => 0x5BC376EE01992CB4EF77C25AB52D9800
      case 8 => 0x620AB2DADFB70F67056DD5BDB8D06800 case 9 => 0x92EA621A6F179FE7750D85FD88F07800
      case 10 => 0x9FD70F47A2EA327AE5AD753DD8904800 case 11 => 0x6F37DF87124AA2FA95CD257DE8B05800
      case 12 => 0x85ADD5FD250D755DD8F088A078502800 case 13 => 0x754D053D95ADE5DDA890D8E048703800
      case 14 => 0x78706860585048403830282018100800 case _ => 0x8890B8A0E8F0D8C04850786028301800)
    case 9 => (match u & 15
      case 0 => 0x0AFFFD08F90C0EFBF10406F302F7F500 case 1 => 0xFA1F2DC849AC9E7B816456B332D7E500
      case 2 => 0xF7224095845133E611C4A67362B7D500 case 3 => 0x07C2905534F1A36661A4F6335297C500
      case 4 => 0xED589A2F03B674C12C995BEEC277B500 case 5 => 0x1DB84AEFB316E4415CF90BAEF257A500
      case 6 => 0x108527B27EEB49DCCC59FB6EA2379500 case 7 => 0xE065F772CE4BD95CBC39AB2E92178500
      case 8 => 0xD9AC33461065FA8F5623BCC99FEA7500 case 9 => 0x294CE386A0C56A0F2643EC89AFCA6500
      case 10 => 0x24718EDB6D38C792B6E31C49FFAA5500 case 11 => 0xD4915E1BDD985712C6834C09CF8A4500
      case 12 => 0x3E0B5461EADF80B58BBEE1D45F6A3500 case 13 => 0xCEEB84A15A7F1035FBDEB1946F4A2500
      case 14 => 0xC3D6E9FC9782BDA86B7E41543F2A1500 case _ => 0x3336393C27222D281B1E11140F0A0500)
    case 10 => (match u & 15
      case 0 => 0xDA0863B1B5670CDE04D6BD6F6BB9D200 case 1 => 0x2AE8B37105C79C5E74B6ED2F5B99C200
      case 2 => 0x27D5DE2CC83A31C3E4161DEF0BF9F200 case 3 => 0xD7350EEC789AA14394764DAF3BD9E200
      case 4 => 0x3DAF04964FDD76E4D94BE072AB399200 case 5 => 0xCD4FD456FF7DE664A92BB0329B198200
      case 6 => 0xC072B90B32804BF9398B40F2CB79B200 case 7 => 0x309269CB8220DB7949EB10B2FB59A200
      case 8 => 0x095BADFF5C0EF8AAA3F10755F6A45200 case 9 => 0xF9BB7D3FECAE682AD3915715C6844200
      case 10 => 0xF48610622153C5B74331A7D596E47200 case 11 => 0x0466C0A291F355373351F795A6C46200
      case 12 => 0xEEFCCAD8A6B482907E6C5A4836241200 case 13 => 0x1E1C1A18161412100E0C0A0806040200
      case 14 => 0x13217745DBE9BF8D9EACFAC856643200 case _ => 0xE3C1A7856B492F0DEECCAA8866442200)
    case 11 => (match u & 15
      case 0 => 0x61AEE22D7AB5F9365798D41B4C83CF00 case 1 => 0x914E32EDCA1569B627F8845B7CA3DF00
      case 2 => 0x9C735FB007E8C42BB758749B2CC3EF00 case 3 => 0x6C938F70B74854ABC73824DB1CE3FF00
      case 4 => 0x8609850A800F830C8A0589068C038F00 case 5 => 0x76E955CA30AF138CFA65D946BC239F00
      case 6 => 0x7BD43897FD52BE116AC52986EC43AF00 case 7 => 0x8B34E8574DF22E911AA579C6DC63BF00
      case 8 => 0xB2FD2C6393DC0D42F0BF6E21D19E4F00 case 9 => 0x421DFCA3237C9DC280DF3E61E1BE5F00
      case 10 => 0x4F2091FEEE81305F107FCEA1B1DE6F00 case 11 => 0xBFC0413E5E21A0DF601F9EE181FE7F00
      case 12 => 0x555A4B44696677782D22333C111E0F00 case 13 => 0xA5BA9B84D9C6E7F85D42637C213E1F00
      case 14 => 0xA887F6D9143B4A65CDE293BC715E2F00 case _ => 0x58672619A49BDAE5BD82C3FC417E3F00)
    case 12 => (match u & 15
      case 0 => 0x67FB42DE2DB10894F36FD64AB9259C00 case 1 => 0x971B921E9D119814830F860A89058C00
      case 2 => 0x9A26FF4350EC358913AF76CAD965BC00 case 3 => 0x6AC62F83E04CA50963CF268AE945AC00
      case 4 => 0x805C25F9D70B72AE2EF28B5779A5DC00 case 5 => 0x70BCF53967ABE22E5E92DB174985CC00
      case 6 => 0x7D819864AA564FB3CE322BD719E5FC00 case 7 => 0x8D6148A41AF6DF33BE527B9729C5EC00
      case 8 => 0xB4A88C90C4D8FCE054486C7024381C00 case 9 => 0x44485C5074786C6024283C3014180C00
      case 10 => 0x4975310DB985C1FDB488CCF044783C00 case 11 => 0xB995E1CD0925517DC4E89CB074582C00
      case 12 => 0x530FEBB73E6286DA89D5316DE4B85C00 case 13 => 0xA3EF3B778EC2165AF9B5612DD4984C00
      case 14 => 0xAED2562A433FBBC7691591ED84F87C00 case _ => 0x5E3286EAF39F2B471975C1ADB4D86C00)
    case 13 => (match u & 15
      case 0 => 0xDC5DC342E263FD7CA021BF3E9E1F8100 case 1 => 0x2CBD138252C36DFCD041EF7EAE3F9100
      case 2 => 0x21807EDF9F3EC06140E11FBEFE5FA100 case 3 => 0xD160AE1F2F9E50E130814FFECE7FB100
      case 4 => 0x3BFAA46518D987467DBCE2235E9FC100 case 5 => 0xCB1A74A5A87917C60DDCB2636EBFD100
      case 6 => 0xC62719F86584BA5B9D7C42A33EDFE100 case 7 => 0x36C7C938D5242ADBED1C12E30EFFF100
      case 8 => 0x0F0E0D0C0B0A09080706050403020100 case 9 => 0xFFEEDDCCBBAA99887766554433221100
      case 10 => 0xF2D3B09176573415E7C6A58463422100 case 11 => 0x02336051C6F7A49597A6F5C453623100
      case 12 => 0xE8A96A2BF1B07332DA9B5819C3824100 case 13 => 0x1849BAEB4110E3B2AAFB0859F3A25100
      case 14 => 0x1574D7B68CED4E2F3A5BF899A3C26100 case _ => 0xE59407763C4DDEAF4A3BA8D993E27100)
    case 14 => (match u & 15
      case 0 => 0x0CAA5DFBAE08FF5955F304A2F751A600 case 1 => 0xFC4A8D3B1EA86FD9259354E2C771B600
      case 2 => 0xF177E066D355C244B533A42297118600 case 3 => 0x019730A663F552C4C553F462A7319600
      case 4 => 0xEB0D3ADC54B28563886E59BF37D1E600 case 5 => 0x1BEDEA1CE41215E3F80E09FF07F1F600
      case 6 => 0x16D0874129EFB87E68AEF93F5791C600 case 7 => 0xE6305781994F28FE18CEA97F67B1D600
      case 8 => 0xDFF993B547610B2DF2D4BE986A4C2600 case 9 => 0x2F194375F7C19BAD82B4EED85A6C3600
      case 10 => 0x22242E283A3C363012141E180A0C0600 case 11 => 0xD2C4FEE88A9CA6B062744E583A2C1600
      case 12 => 0x385EF492BDDB71172F49E385AACC6600 case 13 => 0xC8BE24520D7BE1975F29B3C59AEC7600
      case 14 => 0xC583490FC0864C0ACF894305CA8C4600 case _ => 0x356399CF7026DC8ABFE91345FAAC5600)
    case 15 => (match u & 15
      case 0 => 0xB70CDC6761DA0AB106BD6DD6D06BBB00 case 1 => 0x47EC0CA7D17A9A3176DD3D96E04BAB00
      case 2 => 0x4AD161FA1C8737ACE67DCD56B02B9B00 case 3 => 0xBA31B13AAC27A72C961D9D16800B8B00
      case 4 => 0x50ABBB409B60708BDB2030CB10EBFB00 case 5 => 0xA04B6B802BC0E00BAB40608B20CBEB00
      case 6 => 0xAD7606DDE63D4D963BE0904B70ABDB00 case 7 => 0x5D96D61D569DDD164B80C00B408BCB00
      case 8 => 0x645F122988B3FEC5A19AD7EC4D763B00 case 9 => 0x94BFC2E938136E45D1FA87AC7D562B00
      case 10 => 0x9982AFB4F5EEC3D8415A776C2D361B00 case 11 => 0x69627F74454E5358313A272C1D160B00
      case 12 => 0x83F8750E720984FF7C078AF18DF67B00 case 13 => 0x7318A5CEC2A9147F0C67DAB1BDD66B00
      case 14 => 0x7E25C8930F54B9E29CC72A71EDB65B00 case _ => 0x8EC51853BFF42962ECA77A31DD964B00)
  }

  // Entry n of a 16-byte row.
  function Lane(row: bv128, n: Byte): Byte {
    match n
    case 0 => ((row >> 0) & 0xFF) as Byte
    case 1 => ((row >> 8) & 0xFF) as Byte
    case 2 => ((row >> 16) & 0xFF) as Byte
    case 3 => ((row >> 24) & 0xFF) as Byte
    case 4 => ((row >> 32) & 0xFF) as Byte
    case 5 => ((row >> 40) & 0xFF) as Byte
    case 6 => ((row >> 48) & 0xFF) as Byte
    case 7 => ((row >> 56) & 0xFF) as Byte
    case 8 => ((row >> 64) & 0xFF) as Byte
    case 9 => ((row >> 72) & 0xFF) as Byte
    case 10 => ((row >> 80) & 0xFF) as Byte
    case 11 => ((row >> 88) & 0xFF) as Byte
    case 12 => ((row >> 96) & 0xFF) as Byte
    case 13 => ((row >> 104) & 0xFF) as Byte
    case 14 => ((row >> 112) & 0xFF) as Byte
    case _ => ((row >> 120) & 0xFF) as Byte
  }
}
