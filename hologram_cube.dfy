/** components/HologramCube.tsx: `updateSize`, the table from the window width to the size of
    the cube and the depth of its faces. */
module HologramCube {

  /** `cubeSize` and `translateZ`, in pixels. */
  datatype CubeDims = CubeDims(cubeSize: nat, translateZ: nat)

  /** The state before the first `updateSize`. */
  const InitialDims := CubeDims(400, 200)

  /** Each face sits half the cube's size away from the centre. */
  predicate IsCentred(d: CubeDims) {
    d.translateZ * 2 == d.cubeSize
  }

  /** `updateSize` for `window.innerWidth == width`; every bound is inclusive. */
  function CubeDimsFor(width: int): (d: CubeDims)
    ensures IsCentred(d)
    ensures 180 <= d.cubeSize <= 370
    ensures width <= 480 <==> d.cubeSize == 180
    ensures width > 1200 <==> d.cubeSize == 370
  {
    if width <= 480 then CubeDims(180, 90)
    else if width <= 640 then CubeDims(200, 100)
    else if width <= 768 then CubeDims(220, 110)
    else if width <= 992 then CubeDims(260, 130)
    else if width <= 1200 then CubeDims(320, 160)
    else CubeDims(370, 185)
  }

  lemma InitialDimsCentred()
    ensures IsCentred(InitialDims)
  {
  }

  /** A wider window never gets a smaller cube. */
  lemma CubeSizeMonotone(w1: int, w2: int)
    requires w1 <= w2
    ensures CubeDimsFor(w1).cubeSize <= CubeDimsFor(w2).cubeSize
    ensures CubeDimsFor(w1).translateZ <= CubeDimsFor(w2).translateZ
  {
  }

  /** The bounds belong to the smaller size: 768 still gets 220, 769 gets 260. */
  lemma BreakpointsInclusive()
    ensures CubeDimsFor(480).cubeSize == 180 && CubeDimsFor(481).cubeSize == 200
    ensures CubeDimsFor(768).cubeSize == 220 && CubeDimsFor(769).cubeSize == 260
    ensures CubeDimsFor(1200).cubeSize == 320 && CubeDimsFor(1201).cubeSize == 370
  {
  }
}
