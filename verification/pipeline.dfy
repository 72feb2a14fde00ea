/**
 The pixel work of `process_file` for one decoded image: reject anything
 that did not decode to four channels, then run the recolouring pass and the
 make-opaque pass as configured, and hand the buffer to the encoder.
 */
module Pipeline {
  import opened Grid
  import opened VisitedMask
  import opened Seeding
  import opened Recolor
  import opened Opacity

  /** The three settings `main` reads from the command line into globals. */
  datatype Config = Config(threshold: int, recolour: bool, makeOpaque: bool)

  /** What the decoder returns: nothing, or a buffer of `channels` bytes per pixel. */
  datatype Decoded = LoadFailed | Loaded(data: seq<Byte>, width: nat, height: nat, channels: nat)

  /** What `process_file` does with the file: skips it, or writes this 4-channel buffer. */
  datatype Outcome = Skipped | Written(data: seq<Byte>, width: nat, height: nat)

  predicate WellFormed(input: Decoded)
  {
    input.Loaded? ==> |input.data| == input.width * input.height * input.channels
  }

  /**
   `out` is what the two passes make of the decoded `data`: with recolouring,
   the replay of the first-in-first-out schedule from the seeds (every pixel
   of the schedule has a resolved neighbour when its turn comes); then, with
   make-opaque, every alpha at or below the threshold raised to 255.
   */
  ghost predicate Produces(data: seq<Byte>, width: nat, height: nat, cfg: Config, out: seq<Byte>)
    requires IsImage(data, width, height)
  {
    var mask0 := InitialMask(data, width, height, cfg.threshold);
    var order := ResolveOrder(mask0, width, height, [], Seeds(OpaqueCells(data, width, height, cfg.threshold)));
    && (cfg.recolour ==> Replayable(mask0, width, height, order))
    && var recoloured := if cfg.recolour then Replay(data, width, height, mask0, order) else data;
       out == if cfg.makeOpaque then NormaliseBytes(recoloured, cfg.threshold) else recoloured
  }

  /**
   `process_file` (main.c lines 104-179) after decoding and before encoding.
   The written buffer is exactly what `Produces` describes. Pixels above the
   threshold come out as they went in; with the make-opaque pass every alpha
   ends above the threshold or at 255.
   */
  method ProcessFile(input: Decoded, cfg: Config) returns (r: Outcome)
    requires WellFormed(input)
    ensures r.Skipped? <==> input.LoadFailed? || input.channels != 4
    ensures r.Written? ==> r.width == input.width && r.height == input.height && IsImage(r.data, r.width, r.height)
    ensures r.Written? && !cfg.recolour && !cfg.makeOpaque ==> r.data == input.data
    ensures r.Written? ==> forall x, y :: InBounds(r.width, r.height, x, y) && GetCol(input.data, r.width, r.height, x, y).a > cfg.threshold ==>
              GetCol(r.data, r.width, r.height, x, y) == GetCol(input.data, r.width, r.height, x, y)
    ensures r.Written? && cfg.makeOpaque ==> forall x, y :: InBounds(r.width, r.height, x, y) ==>
              GetCol(r.data, r.width, r.height, x, y).a > cfg.threshold || GetCol(r.data, r.width, r.height, x, y).a == 255
    ensures r.Written? ==> IsImage(input.data, r.width, r.height) && Produces(input.data, r.width, r.height, cfg, r.data)
  {
    if input.LoadFailed? || input.channels != 4 {
      return Skipped;
    }
    var width, height := input.width, input.height;
    var data := input.data;
    if cfg.recolour {
      var order, pushes;
      data, order, pushes := RecolorTransparent(data, width, height, cfg.threshold);
    }
    if cfg.makeOpaque {
      ghost var before := data;
      data := MakeOpaque(data, width, height, cfg.threshold);
      forall x, y | InBounds(width, height, x, y)
        ensures GetCol(data, width, height, x, y).a > cfg.threshold || GetCol(data, width, height, x, y).a == 255
      {
        NormalisedAlpha(before, width, height, cfg.threshold, x, y);
      }
    }
    r := Written(data, width, height);
  }
}
