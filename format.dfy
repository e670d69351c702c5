/** The dashboard's small display helpers: colour bands for averages and
    marks, the mark formatter, and the last name a student is sorted by. */
module DashboardFormat {
  import opened Records

  // ---------------------------------------------------------------------
  // Colour bands

  /** The four colours a number is shown in, best first. */
  datatype Hue = Green | Yellow | Orange | Red

  /** The thresholds both colour functions apply to a number. */
  function ScoreHue(x: real): Hue
  {
    if x >= 86.0 then Green
    else if x >= 71.0 then Yellow
    else if x >= 56.0 then Orange
    else Red
  }

  /** 0 for the best colour, 3 for the worst. */
  function HueRank(h: Hue): nat
  {
    match h
    case Green => 0
    case Yellow => 1
    case Orange => 2
    case Red => 3
  }

  /** Each colour is exactly one interval of scores. */
  lemma ScoreHueIntervals(x: real)
    ensures ScoreHue(x) == Green <==> 86.0 <= x
    ensures ScoreHue(x) == Yellow <==> 71.0 <= x < 86.0
    ensures ScoreHue(x) == Orange <==> 56.0 <= x < 71.0
    ensures ScoreHue(x) == Red <==> x < 56.0
  {
  }

  /** A higher score never gets a worse colour. */
  lemma ScoreHueMonotone(x: real, y: real)
    requires x <= y
    ensures HueRank(ScoreHue(y)) <= HueRank(ScoreHue(x))
  {
  }

  /** `getAvgGradeColor`: a neutral style when there is no average. */
  datatype AvgColor = NoAverage | AvgHue(hue: Hue)

  function AvgGradeColor(score: Option<real>): (c: AvgColor)
    ensures c.NoAverage? <==> score.None?
  {
    match score
    case None => NoAverage
    case Some(x) => AvgHue(ScoreHue(x))
  }

  /** `getScorePillColor`: grey for 'н', the green of a top score for 'б',
      blue for 'зачет', the number's colour for a number, and the plain
      style for an empty cell. */
  datatype PillColor = GreyPill | HuePill(hue: Hue) | BluePill | PlainPill

  function ScorePillColor(score: Score): (c: PillColor)
    ensures c.GreyPill? <==> score == Absent
    ensures c.BluePill? <==> score == Credit
    ensures c.PlainPill? <==> score == Blank
  {
    match score
    case Absent => GreyPill
    case Excused => HuePill(Green)
    case Credit => BluePill
    case Num(x) => HuePill(ScoreHue(x))
    case Blank => PlainPill
  }

  /** An average and a numeric mark with the same value get the same colour. */
  lemma BandsAgree(x: real)
    ensures AvgGradeColor(Some(x)) == AvgHue(ScoreHue(x))
    ensures ScorePillColor(Num(x)) == HuePill(ScoreHue(x))
  {
  }

  // ---------------------------------------------------------------------
  // Marks as text

  /** `formatScore`; `numberText` is `score.toString()` for a number. */
  function FormatScore(score: Score, numberText: real -> string): string
  {
    match score
    case Absent => "Н"
    case Excused => "Б"
    case Credit => "З"
    case Blank => ""
    case Num(x) => numberText(x)
  }

  /** Only an empty cell is shown as empty text (a number's text is never
      empty), and the three letter marks are shown as three different
      letters. */
  lemma FormatScoreEmptyIff(score: Score, numberText: real -> string)
    requires forall x :: numberText(x) != ""
    ensures FormatScore(score, numberText) == "" <==> score == Blank
    ensures score in {Absent, Excused, Credit} ==> |FormatScore(score, numberText)| == 1
    ensures FormatScore(Absent, numberText) != FormatScore(Excused, numberText)
    ensures FormatScore(Absent, numberText) != FormatScore(Credit, numberText)
    ensures FormatScore(Excused, numberText) != FormatScore(Credit, numberText)
  {
  }

  /** No two marks are shown alike when the number text is never empty nor
      one of the three letters, and the two numbers compared, if both marks
      are numbers, are shown alike only when they are equal: the text
      determines the mark. */
  lemma FormatScoreInjective(a: Score, b: Score, numberText: real -> string)
    requires forall x :: numberText(x) !in {"", "Н", "Б", "З"}
    requires a.Num? && b.Num? && numberText(a.points) == numberText(b.points) ==> a.points == b.points
    requires FormatScore(a, numberText) == FormatScore(b, numberText)
    ensures a == b
  {
  }

  // ---------------------------------------------------------------------
  // Last names

  /** `s.split(' ')`: the pieces between single spaces, empty pieces
      included. */
  function Split(s: string): (parts: seq<string>)
    ensures |parts| >= 1
  {
    if |s| == 0 then [""]
    else
      var parts := Split(s[..|s| - 1]);
      var c := s[|s| - 1];
      if c == ' ' then parts + [""]
      else parts[..|parts| - 1] + [parts[|parts| - 1] + [c]]
  }

  /** The pieces glued back together with single spaces. */
  function Join(parts: seq<string>): string
    requires |parts| >= 1
  {
    if |parts| == 1 then parts[0] else Join(parts[..|parts| - 1]) + " " + parts[|parts| - 1]
  }

  /** Joining the pieces of a split gives the string back, and no piece
      holds a space. */
  lemma {:induction false} JoinSplit(s: string)
    ensures Join(Split(s)) == s
    ensures forall i :: 0 <= i < |Split(s)| ==> ' ' !in Split(s)[i]
  {
    if |s| > 0 {
      var init, c := s[..|s| - 1], s[|s| - 1];
      JoinSplit(init);
      var parts := Split(init);
      assert s == init + [c];
      if c != ' ' {
        JoinGrowLast(parts, c);
      } else {
        JoinAppendEmpty(parts);
      }
    }
  }

  /** Extending the last piece extends the joined text. */
  lemma JoinGrowLast(parts: seq<string>, c: char)
    requires |parts| >= 1
    ensures var n := |parts|;
            Join(parts[..n - 1] + [parts[n - 1] + [c]]) == Join(parts) + [c]
  {
    var n := |parts|;
    var q := parts[..n - 1] + [parts[n - 1] + [c]];
    assert q[..n - 1] == parts[..n - 1];
  }

  /** A new empty piece adds one space to the joined text. */
  lemma JoinAppendEmpty(parts: seq<string>)
    requires |parts| >= 1
    ensures Join(parts + [""]) == Join(parts) + " "
  {
    assert (parts + [""])[..|parts|] == parts;
  }

  /** Splitting pieces joined with spaces gives the pieces back, when no
      piece holds a space. */
  lemma {:induction false} SplitJoin(parts: seq<string>)
    requires |parts| >= 1
    requires forall i :: 0 <= i < |parts| ==> ' ' !in parts[i]
    ensures Split(Join(parts)) == parts
  {
    if |parts| == 1 {
      SplitWord(parts[0]);
    } else {
      var init, last := parts[..|parts| - 1], parts[|parts| - 1];
      SplitJoin(init);
      SplitAppendWord(Join(init) + " ", last);
      SplitSpace(Join(init));
      var q := init + [""];
      assert q[..|q| - 1] == init;
      assert q[|q| - 1] + last == last;
      assert parts == init + [last];
    }
  }

  lemma {:induction false} SplitWord(w: string)
    requires ' ' !in w
    ensures Split(w) == [w]
  {
    if |w| > 0 {
      assert w[..|w| - 1] + [w[|w| - 1]] == w;
      SplitWord(w[..|w| - 1]);
    }
  }

  lemma SplitSpace(s: string)
    ensures Split(s + " ") == Split(s) + [""]
  {
    assert (s + " ")[..|s|] == s;
  }

  /** Appending a character other than a space extends the last piece. */
  lemma SplitSnoc(t: string, c: char)
    requires c != ' '
    ensures var q := Split(t);
            Split(t + [c]) == q[..|q| - 1] + [q[|q| - 1] + [c]]
  {
    assert (t + [c])[..|t|] == t;
  }

  /** A list of pieces is its front followed by its last piece. */
  lemma SnocParts(p: seq<string>)
    requires |p| >= 1
    ensures p == p[..|p| - 1] + [p[|p| - 1]]
  {
  }

  /** Growing the last piece by a word, then by one more character. */
  lemma LastPieceGrows(front: seq<string>, last: string, w: string, c: char)
    ensures var q := front + [last + w];
            q[..|q| - 1] + [q[|q| - 1] + [c]] == front + [last + (w + [c])]
  {
    var q := front + [last + w];
    assert q[..|q| - 1] == front;
    assert (last + w) + [c] == last + (w + [c]);
  }

  /** Appending a word without spaces extends the last piece. */
  lemma {:induction false} SplitAppendWord(s: string, w: string)
    requires ' ' !in w
    ensures var p := Split(s);
            Split(s + w) == p[..|p| - 1] + [p[|p| - 1] + w]
  {
    var p := Split(s);
    if |w| == 0 {
      assert s + w == s;
      assert p[|p| - 1] + w == p[|p| - 1];
      SnocParts(p);
    } else {
      var w', c := w[..|w| - 1], w[|w| - 1];
      assert w == w' + [c];
      assert s + w == (s + w') + [c];
      SplitAppendWord(s, w');
      SplitSnoc(s + w', c);
      LastPieceGrows(p[..|p| - 1], p[|p| - 1], w', c);
    }
  }

  /** `getLastName`: the last piece of the split, which is the whole name
      when it holds no space. */
  function LastName(fullName: string): (last: string)
    ensures last == Split(fullName)[|Split(fullName)| - 1]
  {
    var parts := Split(fullName);
    if |parts| > 1 then parts[|parts| - 1] else parts[0]
  }

  /** The last name is what follows the last space of the name (the whole
      name when there is no space). */
  lemma LastNameIsLastWord(fullName: string)
    ensures ' ' !in LastName(fullName)
    ensures exists front :: fullName == front + LastName(fullName)
                            && (front == [] || front[|front| - 1] == ' ')
    ensures ' ' !in fullName ==> LastName(fullName) == fullName
  {
    var parts := Split(fullName);
    JoinSplit(fullName);
    if |parts| > 1 {
      var front := Join(parts[..|parts| - 1]) + " ";
      assert parts[..|parts| - 1] + [parts[|parts| - 1]] == parts;
      assert fullName == front + LastName(fullName);
    } else {
      assert fullName == [] + LastName(fullName);
    }
    if ' ' !in fullName {
      SplitWord(fullName);
    }
  }
}
