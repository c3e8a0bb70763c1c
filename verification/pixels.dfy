/** The pixel buffer of the canvas program: three bytes per pixel, row
    after row, and the four accessors that pack a colour into a pixel and
    read it back, by absolute coordinates (`setabs`, `getabs`) and by
    coordinates centred on the middle of the image with `y` pointing up
    (`seti`, `geti`). The buffer is a value: writing returns the new one. */
module Pixels {
  /** `uint8_t` and `uint32_t`, as the integers they hold. */
  type byte = b: int | 0 <= b < 0x100
  type u32 = c: int | 0 <= c < 0x1_0000_0000

  /** `header.width`, `header.height` and `data`. */
  datatype Canvas = Canvas(width: nat, height: nat, data: seq<byte>)

  /** The buffer holds `width * height * 3` bytes. */
  predicate Valid(c: Canvas) {
    |c.data| == c.width * c.height * 3
  }

  predicate InBounds(c: Canvas, x: int, y: int) {
    0 <= x < c.width && 0 <= y < c.height
  }

  lemma MulLeftMono(a: int, b: int, k: nat)
    requires a <= b
    ensures a * k <= b * k
  {
  }

  /** The offset of a pixel's first byte: `(y * width + x) * 3`. */
  function Loc(c: Canvas, x: int, y: int): (l: nat)
    requires Valid(c) && InBounds(c, x, y)
    ensures l % 3 == 0 && l + 3 <= |c.data|
  {
    MulLeftMono(y, c.height - 1, c.width);
    assert (c.height - 1) * c.width + c.width == c.width * c.height;
    (y * c.width + x) * 3
  }

  /** Two different pixels never share a byte. */
  lemma LocApart(c: Canvas, x1: int, y1: int, x2: int, y2: int)
    requires Valid(c) && InBounds(c, x1, y1) && InBounds(c, x2, y2)
    requires x1 != x2 || y1 != y2
    ensures Loc(c, x1, y1) + 3 <= Loc(c, x2, y2) || Loc(c, x2, y2) + 3 <= Loc(c, x1, y1)
  {
    var a, b := y1 * c.width + x1, y2 * c.width + x2;
    assert Loc(c, x1, y1) == a * 3 && Loc(c, x2, y2) == b * 3;
    if y1 < y2 {
      RowsApart(c.width, x1, y1, x2, y2);
    } else if y2 < y1 {
      RowsApart(c.width, x2, y2, x1, y1);
    }
  }

  /** A pixel of an earlier row comes first. */
  lemma RowsApart(w: nat, x1: int, y1: int, x2: int, y2: int)
    requires 0 <= x1 < w && 0 <= x2 && y1 < y2
    ensures y1 * w + x1 < y2 * w + x2
  {
    MulLeftMono(y1 + 1, y2, w);
    assert (y1 + 1) * w == y1 * w + w;
  }

  /** `setabs(x, y, color)`: inside the image the three low bytes of the
      colour are stored, least significant first, and the answer is
      `true`; outside nothing is written and the answer is `false`. */
  function SetAbs(c: Canvas, x: int, y: int, color: u32): (r: (bool, Canvas))
    requires Valid(c)
    ensures r.0 <==> InBounds(c, x, y)
    ensures Valid(r.1) && r.1.width == c.width && r.1.height == c.height
    ensures !r.0 ==> r.1 == c
    ensures r.0 ==> forall i | 0 <= i < |c.data| && !(Loc(c, x, y) <= i < Loc(c, x, y) + 3) :: r.1.data[i] == c.data[i]
    ensures r.0 ==>
      && r.1.data[Loc(c, x, y)] == color % 0x100
      && r.1.data[Loc(c, x, y) + 1] == color / 0x100 % 0x100
      && r.1.data[Loc(c, x, y) + 2] == color / 0x1_0000 % 0x100
  {
    if InBounds(c, x, y) then
      var l := Loc(c, x, y);
      (true, c.(data := c.data[l := color % 0x100][l + 1 := color / 0x100 % 0x100][l + 2 := color / 0x1_0000 % 0x100]))
    else (false, c)
  }

  /** `getabs(x, y)`: the three bytes of the pixel, least significant
      first, or 0 outside the image. The bytes occupy disjoint bits, so
      the `|` of the shifted bytes is their sum. */
  function GetAbs(c: Canvas, x: int, y: int): (r: u32)
    requires Valid(c)
    ensures r < 0x100_0000
    ensures !InBounds(c, x, y) ==> r == 0
    ensures InBounds(c, x, y) ==>
      && r % 0x100 == c.data[Loc(c, x, y)]
      && r / 0x100 % 0x100 == c.data[Loc(c, x, y) + 1]
      && r / 0x1_0000 == c.data[Loc(c, x, y) + 2]
  {
    if InBounds(c, x, y) then
      var l := Loc(c, x, y);
      BytesOf(c.data[l], c.data[l + 1], c.data[l + 2]);
      c.data[l] as int + c.data[l + 1] as int * 0x100 + c.data[l + 2] as int * 0x1_0000
    else 0
  }

  /** The three bytes `setabs` stores make up the colour's low 24 bits. */
  lemma LowBytes(color: nat)
    ensures color % 0x100 + color / 0x100 % 0x100 * 0x100 + color / 0x1_0000 % 0x100 * 0x1_0000 == color % 0x100_0000
  {
    var q := color / 0x100;
    assert color == q * 0x100 + color % 0x100;
    assert q / 0x100 == color / 0x1_0000;
    var q2 := q / 0x100;
    assert q == q2 * 0x100 + q % 0x100;
    assert color == (q2 % 0x100) * 0x1_0000 + (q2 / 0x100) * 0x100_0000 + (q % 0x100) * 0x100 + color % 0x100;
  }

  /** Packing three bytes and splitting the result gives the bytes back. */
  lemma BytesOf(b0: byte, b1: byte, b2: byte)
    ensures (b0 + b1 * 0x100 + b2 * 0x1_0000) % 0x100 == b0
    ensures (b0 + b1 * 0x100 + b2 * 0x1_0000) / 0x100 % 0x100 == b1
    ensures (b0 + b1 * 0x100 + b2 * 0x1_0000) / 0x1_0000 == b2
  {
  }

  /** Reading a pixel just written gives back the colour without its top
      byte. */
  lemma GetAfterSet(c: Canvas, x: int, y: int, color: u32)
    requires Valid(c) && InBounds(c, x, y)
    ensures GetAbs(SetAbs(c, x, y, color).1, x, y) == color % 0x100_0000
  {
    LowBytes(color);
  }

  /** Writing a pixel leaves every other pixel as it was. */
  lemma GetAfterSetElsewhere(c: Canvas, x: int, y: int, color: u32, x2: int, y2: int)
    requires Valid(c) && (x2 != x || y2 != y)
    ensures GetAbs(SetAbs(c, x, y, color).1, x2, y2) == GetAbs(c, x2, y2)
  {
    if InBounds(c, x, y) && InBounds(c, x2, y2) {
      LocApart(c, x, y, x2, y2);
    }
  }

  /** Reading any pixel of the image after writing a 24-bit colour to one. */
  lemma GetAfterSetAny(c: Canvas, x: int, y: int, color: u32, px: int, py: int)
    requires Valid(c) && InBounds(c, px, py) && color < 0x100_0000
    ensures GetAbs(SetAbs(c, x, y, color).1, px, py) == if px == x && py == y then color else GetAbs(c, px, py)
  {
    if px == x && py == y {
      GetAfterSet(c, x, y, color);
    } else {
      GetAfterSetElsewhere(c, x, y, color, px, py);
    }
  }

  /** Writing back what was read changes nothing: the disabled copy loop
      of the program is the identity. */
  lemma SetWhatWasRead(c: Canvas, x: int, y: int)
    requires Valid(c)
    ensures SetAbs(c, x, y, GetAbs(c, x, y)).1 == c
  {
    if InBounds(c, x, y) {
      var l := Loc(c, x, y);
      var v := GetAbs(c, x, y);
      BytesOf(c.data[l], c.data[l + 1], c.data[l + 2]);
      var d := SetAbs(c, x, y, v).1.data;
      assert d == c.data[l := c.data[l]][l + 1 := c.data[l + 1]][l + 2 := c.data[l + 2]];
    }
  }

  /** `seti(x, y, color)`: the origin is the pixel `(width / 2, height / 2)`
      and `y` grows upwards. It writes exactly when the point lies in the
      image's centred range. */
  function SetI(c: Canvas, x: int, y: int, color: u32): (r: (bool, Canvas))
    requires Valid(c)
    ensures r.0 <==> -(c.width / 2) <= x < c.width - c.width / 2 && c.height / 2 - c.height < y <= c.height / 2
    ensures !r.0 ==> r.1 == c
  {
    SetAbs(c, x + c.width / 2, -y + c.height / 2, color)
  }

  /** `geti(x, y)`, with the coordinates of `seti`. */
  function GetI(c: Canvas, x: int, y: int): (r: u32)
    requires Valid(c)
    ensures r < 0x100_0000
    ensures !(-(c.width / 2) <= x < c.width - c.width / 2 && c.height / 2 - c.height < y <= c.height / 2) ==> r == 0
  {
    GetAbs(c, x + c.width / 2, -y + c.height / 2)
  }

  /** Reading a centred pixel just written gives back the colour without
      its top byte. */
  lemma GetIAfterSetI(c: Canvas, x: int, y: int, color: u32)
    requires Valid(c) && SetI(c, x, y, color).0
    ensures GetI(SetI(c, x, y, color).1, x, y) == color % 0x100_0000
  {
    GetAfterSet(c, x + c.width / 2, -y + c.height / 2, color);
  }

  /** Every pixel of the image has centred coordinates: the absolute pixel
      `(ax, ay)` is the centred pixel `(ax - width / 2, height / 2 - ay)`,
      for reading and for writing. */
  lemma CentredCoordinates(c: Canvas, ax: int, ay: int, color: u32)
    requires Valid(c)
    ensures GetI(c, ax - c.width / 2, c.height / 2 - ay) == GetAbs(c, ax, ay)
    ensures SetI(c, ax - c.width / 2, c.height / 2 - ay, color) == SetAbs(c, ax, ay, color)
  {
  }
}
