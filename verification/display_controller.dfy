/**
 `DisplayController<WIDTH, HEIGHT>`: command and data framing for the SSD1306
 over I2C.  Each blocking bus write is one transaction, the byte string put
 on the bus after the device address; an operation is the list of
 transactions it performs, in order.  Following the I2C write format of
 section 8.1.5 of the SSD1306 datasheet, a transaction starts with a control
 byte: 0x80 for a single command byte, 0x40 for a run of display data bytes.
 */
module DisplayController {
  import opened Bits
  import opened PageLayout
  import FrameBuffers

  /** The bytes of one `i2c_write_blocking` call. */
  type Transaction = seq<bv8>

  const COMMAND_CONTROL: bv8 := 0x80
  const DATA_CONTROL: bv8 := 0x40

  /** Payload bytes one data transaction can carry. */
  const MAX_I2C_TRANSFER: nat := 64

  /** Memory pages streamed per frame: eight rows of pixels each. */
  const PAGES: nat := 8

  // Command bytes of the SSD1306 command table (section 9 of its datasheet).
  const SETCONTRAST: bv8 := 0x81
  const DISPLAYALLON_RESUME: bv8 := 0xA4
  const NORMALDISPLAY: bv8 := 0xA6
  const INVERTDISPLAY: bv8 := 0xA7
  const DISPLAYOFF: bv8 := 0xAE
  const DISPLAYON: bv8 := 0xAF
  const SETDISPLAYOFFSET: bv8 := 0xD3
  const SETCOMPINS: bv8 := 0xDA
  const SETVCOMDETECT: bv8 := 0xDB
  const SETDISPLAYCLOCKDIV: bv8 := 0xD5
  const SETPRECHARGE: bv8 := 0xD9
  const SETMULTIPLEX: bv8 := 0xA8
  const SETSTARTLINE: bv8 := 0x40
  const MEMORYMODE: bv8 := 0x20
  const COMSCANDEC: bv8 := 0xC8
  const SEGREMAP: bv8 := 0xA0
  const CHARGEPUMP: bv8 := 0x8D
  const DEACTIVATE_SCROLL: bv8 := 0x2E

  /** `_send_command(command)`: one two-byte transaction. */
  function Command(command: bv8): (t: Transaction)
    ensures |t| == 2 && t[0] == COMMAND_CONTROL && t[1] == command
  {
    [COMMAND_CONTROL, command]
  }

  /** `_send_data(data, length)`: the control byte then the bytes, at most 64 of them. */
  function Data(payload: seq<bv8>): (t: Transaction)
    requires |payload| <= MAX_I2C_TRANSFER
    ensures |t| == |payload| + 1 && t[0] == DATA_CONTROL && t[1..] == payload
  {
    [DATA_CONTROL] + payload
  }

  predicate IsCommand(t: Transaction)
  {
    |t| == 2 && t[0] == COMMAND_CONTROL
  }

  /** One command transaction per command byte, in order. */
  function Commands(commands: seq<bv8>): (log: seq<Transaction>)
    ensures |log| == |commands|
    ensures forall i | 0 <= i < |log| :: log[i] == Command(commands[i])
  {
    seq(|commands|, i requires 0 <= i < |commands| => Command(commands[i]))
  }

  /** The display data a transaction carries: its bytes after a 0x40 control byte. */
  function Payload(t: Transaction): seq<bv8>
  {
    if |t| > 0 && t[0] == DATA_CONTROL then t[1..] else []
  }

  /** The display data of a whole log, concatenated in order. */
  function Payloads(log: seq<Transaction>): seq<bv8>
  {
    if |log| == 0 then [] else Payload(log[0]) + Payloads(log[1..])
  }

  lemma {:induction false} PayloadsAppend(a: seq<Transaction>, b: seq<Transaction>)
    ensures Payloads(a + b) == Payloads(a) + Payloads(b)
    decreases |a|
  {
    if |a| == 0 {
      assert a + b == b;
    } else {
      assert (a + b)[0] == a[0];
      assert (a + b)[1..] == a[1..] + b;
      PayloadsAppend(a[1..], b);
    }
  }

  /** Command transactions carry no display data. */
  lemma {:induction false} CommandsCarryNoData(commands: seq<bv8>)
    ensures Payloads(Commands(commands)) == []
    decreases |commands|
  {
    if |commands| > 0 {
      assert Commands(commands)[1..] == Commands(commands[1..]);
      CommandsCarryNoData(commands[1..]);
    }
  }

  /** The command bytes `initialize` sends, in order. */
  function InitSequence(externalVcc: bool): seq<bv8>
  {
    [ DISPLAYOFF,
      SETDISPLAYCLOCKDIV, 0x80,
      SETMULTIPLEX, 0x3F,
      SETDISPLAYOFFSET, 0x00,
      SETSTARTLINE | 0x00,
      CHARGEPUMP, if externalVcc then 0x10 else 0x14,
      MEMORYMODE, 0x00,
      SEGREMAP | 0x01,
      COMSCANDEC,
      SETCOMPINS, 0x12,
      SETCONTRAST, if externalVcc then 0x9F else 0xCF,
      SETPRECHARGE, if externalVcc then 0x22 else 0xF1,
      SETVCOMDETECT, 0x40,
      DEACTIVATE_SCROLL,
      DISPLAYALLON_RESUME,
      NORMALDISPLAY,
      DISPLAYON ]
  }

  /**
   `initialize()` after the bus set-up: 26 single-command transactions, from
   display off to display on, with the supply-dependent charge pump,
   contrast and pre-charge values.
   */
  function Initialize(externalVcc: bool): (log: seq<Transaction>)
    ensures |log| == 26
    ensures forall i | 0 <= i < 26 :: IsCommand(log[i])
    ensures log[0] == Command(DISPLAYOFF) && log[25] == Command(DISPLAYON)
    ensures log[8] == Command(CHARGEPUMP) && log[9] == Command(if externalVcc then 0x10 else 0x14)
    ensures log[16] == Command(SETCONTRAST) && log[17] == Command(if externalVcc then 0x9F else 0xCF)
    ensures log[18] == Command(SETPRECHARGE) && log[19] == Command(if externalVcc then 0x22 else 0xF1)
  {
    Commands(InitSequence(externalVcc))
  }

  /** Only the charge pump, contrast and pre-charge values depend on the supply. */
  lemma InitSupplyDependence()
    ensures forall i | 0 <= i < 26 :: (Initialize(true)[i] != Initialize(false)[i]) <==> (i == 9 || i == 17 || i == 19)
  {
    var t, f := InitSequence(true), InitSequence(false);
    forall i | 0 <= i < 26 ensures (Initialize(true)[i] != Initialize(false)[i]) <==> (i == 9 || i == 17 || i == 19) {
      assert Initialize(true)[i] == Command(t[i]) && Initialize(false)[i] == Command(f[i]);
      assert (t[i] != f[i]) <==> (i == 9 || i == 17 || i == 19);
    }
  }

  /** Page-addressing command for page `p` (section 10.1 of the SSD1306 datasheet). */
  function PageStart(p: nat): bv8
    requires p < PAGES
  {
    0xB0 + p as bv8
  }

  /** Columns of the panel: the bytes of one page. */
  const WIDTH: nat := 128

  /** What `display_framebuffer` sends for page `p`: addressing, then two 64-byte halves. */
  function PageTransactions(data: seq<bv8>, p: nat): (log: seq<Transaction>)
    requires p < PAGES && |data| == WIDTH * PAGES
    ensures |log| == 5
  {
    [ Command(0x10), Command(0x00), Command(PageStart(p)),
      Data(data[p * WIDTH .. p * WIDTH + 64]),
      Data(data[p * WIDTH + 64 .. p * WIDTH + 128]) ]
  }

  /** Pages `p` to 7 of one frame, in page order. */
  function FramePages(data: seq<bv8>, p: nat): (log: seq<Transaction>)
    requires p <= PAGES && |data| == WIDTH * PAGES
    ensures |log| == 5 * (PAGES - p)
    decreases PAGES - p
  {
    if p == PAGES then [] else PageTransactions(data, p) + FramePages(data, p + 1)
  }

  /** The five transactions for page `p` inside a frame log. */
  function PageSlice(log: seq<Transaction>, p: nat): seq<Transaction>
    requires p < PAGES && |log| == 5 * PAGES
  {
    log[5 * p .. 5 * p + 5]
  }

  lemma {:induction false} FramePagesLayout(data: seq<bv8>, p: nat)
    requires p <= PAGES && |data| == WIDTH * PAGES
    ensures forall q | p <= q < PAGES ::
      FramePages(data, p)[5 * (q - p) .. 5 * (q - p) + 5] == PageTransactions(data, q)
    decreases PAGES - p
  {
    if p < PAGES {
      FramePagesLayout(data, p + 1);
      var head := PageTransactions(data, p);
      var rest := FramePages(data, p + 1);
      forall q | p <= q < PAGES
        ensures (head + rest)[5 * (q - p) .. 5 * (q - p) + 5] == PageTransactions(data, q)
      {
        if q > p {
          assert (head + rest)[5 * (q - p) .. 5 * (q - p) + 5] == rest[5 * (q - p - 1) .. 5 * (q - p - 1) + 5];
        }
      }
    }
  }

  /**
   `display_framebuffer(framebuffer)` for the 128 x 64 panel: 40
   transactions; for each page p in order, set higher column 0, lower
   column 0, page p, then the page's first and second 64 bytes as data.
   */
  function DisplayFramebuffer(fb: FrameBuffers.FrameBuffer): (log: seq<Transaction>)
    requires FrameBuffers.Valid(fb) && fb.width == 128 && fb.height == 64
    ensures |log| == 5 * PAGES
    ensures forall p | 0 <= p < PAGES ::
      PageSlice(log, p) == [ Command(0x10), Command(0x00), Command(0xB0 + p as bv8),
                             Data(fb.data[p * 128 .. p * 128 + 64]),
                             Data(fb.data[p * 128 + 64 .. p * 128 + 128]) ]
  {
    assert |fb.data| == WIDTH * PAGES;
    FrameLayout(fb.data);
    FramePages(fb.data, 0)
  }

  /** Page `p` of a frame log: the page's address commands, then its two halves. */
  lemma FrameLayout(data: seq<bv8>)
    requires |data| == WIDTH * PAGES
    ensures forall p | 0 <= p < PAGES ::
      PageSlice(FramePages(data, 0), p) == [ Command(0x10), Command(0x00), Command(0xB0 + p as bv8),
                                             Data(data[p * 128 .. p * 128 + 64]),
                                             Data(data[p * 128 + 64 .. p * 128 + 128]) ]
  {
    FramePagesLayout(data, 0);
    forall p | 0 <= p < PAGES
      ensures PageSlice(FramePages(data, 0), p) == PageTransactions(data, p)
    {
    }
  }

  lemma {:induction false} FramePagesPayloads(data: seq<bv8>, p: nat)
    requires p <= PAGES && |data| == WIDTH * PAGES
    ensures Payloads(FramePages(data, p)) == data[WIDTH * p ..]
    decreases PAGES - p
  {
    if p < PAGES {
      var head := PageTransactions(data, p);
      FramePagesPayloads(data, p + 1);
      PayloadsAppend(head, FramePages(data, p + 1));
      assert Payloads(head) == data[128 * p .. 128 * p + 64] + data[128 * p + 64 .. 128 * p + 128] by {
        var lo, hi := data[128 * p .. 128 * p + 64], data[128 * p + 64 .. 128 * p + 128];
        assert Payload(head[3]) == lo && Payload(head[4]) == hi;
        assert Payloads(head[4..]) == hi by { assert head[4..][1..] == []; }
        assert Payloads(head[3..]) == lo + hi by { assert head[3..][1..] == head[4..]; }
        assert Payloads(head[2..]) == lo + hi by { assert head[2..][1..] == head[3..]; }
        assert Payloads(head[1..]) == lo + hi by { assert head[1..][1..] == head[2..]; }
      }
      assert data[128 * p ..] == data[128 * p .. 128 * p + 64] + data[128 * p + 64 .. 128 * p + 128] + data[128 * (p + 1) ..];
    }
  }

  /**
   For the 128 x 64 display, the data bytes of one frame, concatenated with
   their control bytes stripped, are exactly the frame buffer's bytes.
   */
  lemma FramePayloadsAreFrameBuffer(fb: FrameBuffers.FrameBuffer)
    requires FrameBuffers.Valid(fb) && fb.width == 128 && fb.height == 64
    ensures Payloads(DisplayFramebuffer(fb)) == FrameBuffers.GetData(fb)
  {
    FramePagesPayloads(fb.data, 0);
  }

  /** `set_invesion(inverted)`: one command, invert or normal display. */
  function SetInversion(inverted: bool): (log: seq<Transaction>)
    ensures |log| == 1
    ensures log[0] == Command(if inverted then INVERTDISPLAY else NORMALDISPLAY)
  {
    Commands([if inverted then INVERTDISPLAY else NORMALDISPLAY])
  }

  /** `set_dimming(dimmed)`: contrast 0 when dimmed, else the configured full contrast. */
  function SetDimming(externalVcc: bool, dimmed: bool): (log: seq<Transaction>)
    ensures |log| == 2 && log[0] == Command(SETCONTRAST)
    ensures dimmed ==> log[1] == Command(0x00)
  {
    var contrast: bv8 := if dimmed then 0x00 else if externalVcc then 0x9F else 0xCF;
    Commands([SETCONTRAST, contrast])
  }

  /** `set_contrast(contrast)`: the contrast command and its value. */
  function SetContrast(contrast: bv8): (log: seq<Transaction>)
    ensures log == [Command(SETCONTRAST), Command(contrast)]
  {
    Commands([SETCONTRAST, contrast])
  }

  /** Dimming is setting the contrast: to 0, or back to the value `initialize` chose for the supply. */
  lemma DimmingIsContrast(externalVcc: bool, dimmed: bool)
    ensures SetDimming(externalVcc, dimmed) == SetContrast(if dimmed then 0x00 else Initialize(externalVcc)[17][1])
  {
  }

  /** Turning dimming off restores exactly the contrast command pair `initialize` sent. */
  lemma UndimRestoresInitContrast(externalVcc: bool)
    ensures SetDimming(externalVcc, false) == Initialize(externalVcc)[16..18]
  {
  }
}
