/** The particle field the canvas callback builds once at mount: for each of
    `count` particles it draws an angle, a distance and a size from
    `Math.random()`, pushes the two coordinates onto `positions` and the size
    onto `sizes`, and the frame callback then draws `count` points from those
    two attribute buffers (two floats per vertex for `a_position`, one for
    `a_size`). The random draws are an input sequence; `Math.PI`, `Math.cos`,
    `Math.sin` and `Math.sqrt` are uninterpreted parameters; numbers are reals. */
module ParticleBuffers {

  /** The host's `Math` functions the loop calls. */
  datatype MathLib = MathLib(pi: real, cos: real -> real, sin: real -> real, sqrt: real -> real)

  /** The props (`count`, `pointSize`, `radius`) and the canvas backing size
      the loop reads. */
  datatype Layout = Layout(count: int, pointSize: real, radius: real, width: real, height: real)

  /** One particle as it ends up in the buffers. */
  datatype Particle = Particle(x: real, y: real, size: real)

  /** What `Math.random()` can return. */
  predicate IsUnitDraw(u: real) {
    0.0 <= u < 1.0
  }

  predicate AllUnitDraws(draws: seq<real>) {
    forall k :: 0 <= k < |draws| ==> IsUnitDraw(draws[k])
  }

  /** How many times `for (let i = 0; i < count; i++)` runs. */
  function ParticleCount(count: int): nat
  {
    if count <= 0 then 0 else count
  }

  /** Particle i as the loop body computes it from the draws 3i (angle),
      3i+1 (distance) and 3i+2 (size): a point at that angle and distance
      from the canvas centre, and a size one random unit above `pointSize`. */
  function ParticleAt(m: MathLib, l: Layout, draws: seq<real>, i: nat): Particle
    requires 3 * i + 2 < |draws|
  {
    var angle := draws[3 * i] * 2.0 * m.pi;
    var dist := m.sqrt(draws[3 * i + 1]) * l.radius * l.width;
    Particle(l.width / 2.0 + m.cos(angle) * dist,
             l.height / 2.0 + m.sin(angle) * dist,
             l.pointSize + draws[3 * i + 2])
  }

  /** The size of a particle lies in [pointSize, pointSize + 1). */
  lemma SizeInRange(m: MathLib, l: Layout, draws: seq<real>, i: nat)
    requires 3 * i + 2 < |draws| && AllUnitDraws(draws)
    ensures l.pointSize <= ParticleAt(m, l, draws, i).size < l.pointSize + 1.0
  {
    assert IsUnitDraw(draws[3 * i + 2]);
  }

  /** Buffers laid out as the shader attributes read them: particle i owns
      positions[2i], positions[2i+1] and sizes[i]. */
  predicate HoldsParticle(positions: seq<real>, sizes: seq<real>, i: nat, p: Particle)
    requires 2 * i + 1 < |positions| && i < |sizes|
  {
    positions[2 * i] == p.x && positions[2 * i + 1] == p.y && sizes[i] == p.size
  }

  /** The generation loop. It consumes three draws per particle and produces
      exactly 2 * count position numbers and count sizes (none when count is
      not positive), particle i at index 2i / i, with every size in
      [pointSize, pointSize + 1). */
  method BuildBuffers(m: MathLib, l: Layout, draws: seq<real>) returns (positions: seq<real>, sizes: seq<real>)
    requires |draws| >= 3 * ParticleCount(l.count)
    requires AllUnitDraws(draws)
    ensures |sizes| == ParticleCount(l.count)
    ensures |positions| == 2 * |sizes|
    ensures forall i :: 0 <= i < |sizes| ==> HoldsParticle(positions, sizes, i, ParticleAt(m, l, draws, i))
    ensures forall i :: 0 <= i < |sizes| ==> l.pointSize <= sizes[i] < l.pointSize + 1.0
  {
    positions := [];
    sizes := [];
    var i := 0;
    while i < l.count
      invariant 0 <= i <= ParticleCount(l.count)
      invariant |sizes| == i && |positions| == 2 * i
      invariant forall j :: 0 <= j < i ==> HoldsParticle(positions, sizes, j, ParticleAt(m, l, draws, j))
      invariant forall j :: 0 <= j < i ==> l.pointSize <= sizes[j] < l.pointSize + 1.0
    {
      var p := ParticleAt(m, l, draws, i);
      var positions', sizes' := positions + [p.x, p.y], sizes + [p.size];
      forall j | 0 <= j < i
        ensures HoldsParticle(positions', sizes', j, ParticleAt(m, l, draws, j))
      {
        assert positions'[2 * j] == positions[2 * j] && positions'[2 * j + 1] == positions[2 * j + 1];
        assert HoldsParticle(positions, sizes, j, ParticleAt(m, l, draws, j));
      }
      assert HoldsParticle(positions', sizes', i, p);
      SizeInRange(m, l, draws, i);
      positions, sizes := positions', sizes';
      i := i + 1;
    }
  }

  /** Outcome of `gl.drawArrays(gl.POINTS, first, count)` as WebGL 1.0 defines
      it (section 6.6 of the WebGL 1.0 specification and section 2.8 of the
      OpenGL ES 2.0 specification): a negative first or count is
      INVALID_VALUE; a range that runs past an enabled attribute buffer is
      INVALID_OPERATION; otherwise `count` vertices are drawn. */
  datatype DrawResult = Drawn(vertices: nat) | InvalidValue | InvalidOperation

  /** drawArrays over the two buffers: `a_position` holds 2 floats per vertex,
      `a_size` 1 float per vertex. */
  function DrawPoints(first: int, count: int, positions: seq<real>, sizes: seq<real>): (r: DrawResult)
    ensures r.Drawn? ==> r.vertices == count
    ensures r.Drawn? && count > 0 ==> 2 * (first + count) <= |positions| && first + count <= |sizes|
    ensures r == InvalidValue <==> first < 0 || count < 0
    ensures first >= 0 && count >= 0 && (count == 0 || (2 * (first + count) <= |positions| && first + count <= |sizes|)) ==> r == Drawn(count)
  {
    if first < 0 || count < 0 then InvalidValue
    else if count > 0 && (2 * (first + count) > |positions| || first + count > |sizes|) then InvalidOperation
    else Drawn(count)
  }

  /** Mount followed by one frame: the loop fills the buffers and the frame
      callback issues `drawArrays(POINTS, 0, count)` on them. A nonnegative
      count draws exactly the particles the loop produced, within both
      buffers; a negative count, for which the loop produced nothing, is
      rejected with INVALID_VALUE. */
  method Render(m: MathLib, l: Layout, draws: seq<real>) returns (positions: seq<real>, sizes: seq<real>, r: DrawResult)
    requires |draws| >= 3 * ParticleCount(l.count)
    requires AllUnitDraws(draws)
    ensures l.count >= 0 ==> r == Drawn(|sizes|) && |sizes| == l.count && |positions| == 2 * l.count
    ensures l.count < 0 ==> r == InvalidValue && |sizes| == 0 && |positions| == 0
  {
    positions, sizes := BuildBuffers(m, l, draws);
    r := DrawPoints(0, l.count, positions, sizes);
  }
}
