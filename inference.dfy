/**
 * The label rule of the inference step. The detector is opaque: what it
 * returns is an input, either "no model loaded" or the boxes it found, in
 * the detector's own order, each with its class name and its score already
 * formatted as a one-decimal percentage.
 */
module Inference {
  import opened PyStr

  datatype Box = Box(className: string, percent: string)

  datatype Detection = NoModel | Detected(boxes: seq<Box>)

  datatype Outcome = Outcome(result: string, confidence: string)

  lemma UpperOfLowerChar(c: char)
    ensures UpperChar(LowerChar(c)) == UpperChar(c)
  {
  }

  /** Upper-casing discards what lower-casing did. */
  lemma UpperOfLower(s: string)
    ensures Upper(Lower(s)) == Upper(s)
  {
    forall i | 0 <= i < |s| ensures Upper(Lower(s))[i] == Upper(s)[i] {
      UpperOfLowerChar(s[i]);
    }
  }

  /** A lower-cased name whose capitals spell those of a small-letter word `w` is `w`. */
  lemma CapitalsOfLowered(x: string, w: string)
    requires forall i :: 0 <= i < |w| ==> 'a' <= w[i] <= 'z'
    requires Upper(Lower(x)) == Upper(w)
    ensures Lower(x) == w
  {
    forall i | 0 <= i < |w| ensures Lower(x)[i] == w[i] {
      assert UpperChar(Lower(x)[i]) == UpperChar(w[i]);
    }
  }

  /** A lower-cased name whose capitals spell the small-letter word `w` contains `w`. */
  lemma SpelledIsContained(x: string, w: string)
    requires forall i :: 0 <= i < |w| ==> 'a' <= w[i] <= 'z'
    ensures Upper(Lower(x)) == Upper(w) ==> Contains(Lower(x), w)
  {
    if Upper(Lower(x)) == Upper(w) {
      CapitalsOfLowered(x, w);
      assert OccursAt(Lower(x), w, 0);
    }
  }

  /**
   * The class-name rule: on the lower-cased name, containing "ok" gives
   * "OK" (tested first), else containing "ng" gives "NG", else the name
   * upper-cased.
   */
  function Classify(className: string): (result: string)
    ensures result == "OK" <==> Contains(Lower(className), "ok")
    ensures result == "NG" <==> !Contains(Lower(className), "ok") && Contains(Lower(className), "ng")
    ensures result != "OK" && result != "NG" ==> result == Upper(className)
  {
    var lowered := Lower(className);
    if Contains(lowered, "ok") then "OK"
    else if Contains(lowered, "ng") then "NG"
    else
      UpperOfLower(className);
      SpelledIsContained(className, "ok");
      SpelledIsContained(className, "ng");
      Upper(lowered)
  }

  /** The rule looks at the class name only through its lower-case form. */
  lemma ClassifyIgnoresCase(x: string, y: string)
    requires Lower(x) == Lower(y)
    ensures Classify(x) == Classify(y)
  {
    UpperOfLower(x);
    UpperOfLower(y);
  }

  /** A class name holding both markers is "OK", because "ok" is tested first. */
  lemma OkTestedBeforeNg()
    ensures Classify("ok_ng") == "OK"
    ensures Classify("Scratch_NG") == "NG"
  {
    assert OccursAt(Lower("ok_ng"), "ok", 0);
    var l := Lower("Scratch_NG");
    assert l == "scratch_ng";
    assert OccursAt(l, "ng", 8);
    forall i | 0 <= i <= |l| - 2 ensures !OccursAt(l, "ok", i) {
      assert l[i] != 'o';
    }
  }

  /**
   * `run_ai_inference` without its image I/O: no model gives "MODEL ERROR"
   * with "0%", no box gives "NO DETECT" with the zero score "0.0%", and
   * otherwise the first box alone decides the label and the score.
   */
  function Infer(d: Detection): (o: Outcome)
    ensures d.NoModel? ==> o == Outcome("MODEL ERROR", "0%")
    ensures d.Detected? && d.boxes == [] ==> o == Outcome("NO DETECT", "0.0%")
    ensures d.Detected? && d.boxes != [] ==>
      o.result == Classify(d.boxes[0].className) && o.confidence == d.boxes[0].percent + "%"
  {
    match d
    case NoModel => Outcome("MODEL ERROR", "0%")
    case Detected(boxes) =>
      if |boxes| > 0 then Outcome(Classify(boxes[0].className), boxes[0].percent + "%")
      else Outcome("NO DETECT", "0.0%")
  }
}
